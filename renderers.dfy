/** The ability-score field renderer (renderers.py): the id of the modifier badge it
    emits and the HTML it puts around an input. */
module Renderers {
  import opened Strings
  import ClientHelpers

  /** The widget of the rendered field, as `isinstance` sees it: an instance of (a
      subclass of) TextInput, DateInput or Select, or anything else. */
  datatype WidgetKind = TextInput | DateInput | Select | OtherWidget

  /** The state `make_input_group` reads. An addon counts as set when it is non-empty,
      as Python's truth test treats a string. */
  datatype FieldRenderer = FieldRenderer(addonBefore: string, addonAfter: string, widget: WidgetKind, modId: string)

  /** `re.sub(r'_', r'_mod_', id_for_label)`: every underscore becomes `_mod_`. */
  function ModId(idForLabel: string): (r: string)
    ensures '_' !in idForLabel ==> r == idForLabel
  {
    ReplaceAll(idForLabel, '_', "_mod_")
  }

  /** `AbilityScoreFieldRenderer.__init__`: the renderer keeps the addons and the widget
      and derives its badge id once, from the field's label id. */
  function NewRenderer(idForLabel: string, addonBefore: string, addonAfter: string, widget: WidgetKind): (r: FieldRenderer)
    ensures multiset(r.modId)['_'] == 2 * multiset(idForLabel)['_']
    ensures r.addonBefore == addonBefore && r.addonAfter == addonAfter && r.widget == widget
  {
    ReplaceAllCount(idForLabel, '_', "_mod_");
    ModTokenCount();
    TimesIsProduct(multiset(idForLabel)['_'], 2);
    FieldRenderer(addonBefore, addonAfter, widget, ModId(idForLabel))
  }

  /** `_mod_` holds two underscores. */
  lemma ModTokenCount()
    ensures multiset("_mod_")['_'] == 2
  {
    assert multiset("_mod_") == multiset{'_', 'm', 'o', 'd', '_'};
  }

  /** The label id `id_strength` gets the badge id `id_mod_strength`. */
  lemma ModIdOfStrength()
    ensures ModId("id_strength") == "id_mod_strength"
  {
    var id := "id_strength";
    assert multiset(id)['_'] == 1 by {
      assert multiset(id) == multiset{'i', 'd', '_', 's', 't', 'r', 'e', 'n', 'g', 't', 'h'};
    }
    ModIdsAgreeIff(id);
    ClientHelpers.ModIdOfStrength();
  }

  /** An id with exactly one underscore gets `_mod_` in its place. */
  lemma OneUnderscoreReplaced(a: string, b: string)
    requires '_' !in a && '_' !in b
    ensures ModId(a + "_" + b) == a + "_mod_" + b
  {
    ReplaceAllAppend(a + "_", b, '_', "_mod_");
    ReplaceAllAppend(a, "_", '_', "_mod_");
    assert ReplaceAll("_", '_', "_mod_") == "_mod_" + ReplaceAll([], '_', "_mod_");
  }

  /** The badge id the page script computes from an input id (first underscore only)
      is the one this renderer gave the badge (every underscore) exactly when the id
      has at most one underscore. */
  lemma ModIdsAgreeIff(id: string)
    ensures ClientHelpers.ModId(id) == ModId(id) <==> multiset(id)['_'] <= 1
  {
    if '_' in id {
      var k := FirstIndexOfChar(id, '_');
      if multiset(id)['_'] <= 1 {
        ModIdsAgreeOnOneUnderscore(id, k);
      } else {
        ModIdsDifferOnMoreUnderscores(id);
      }
    }
  }

  lemma ModIdsAgreeOnOneUnderscore(id: string, k: nat)
    requires k < |id| && id[k] == '_' && '_' !in id[..k]
    requires multiset(id)['_'] <= 1
    ensures ClientHelpers.ModId(id) == ModId(id)
  {
    SplitAt(id, k);
    CountConcat(id[..k], [id[k]], id[k + 1..], '_');
    assert '_' !in id[k + 1..];
    assert id == id[..k] + "_" + id[k + 1..];
    OneUnderscoreReplaced(id[..k], id[k + 1..]);
  }

  /** With two or more underscores the two ids have different numbers of underscores. */
  lemma ModIdsDifferOnMoreUnderscores(id: string)
    requires multiset(id)['_'] >= 2
    ensures ClientHelpers.ModId(id) != ModId(id)
  {
    var n, m := multiset(id)['_'], multiset("_mod_")['_'];
    ModTokenCount();
    ReplaceFirstCount(id, '_', "_mod_");
    ReplaceAllCount(id, '_', "_mod_");
    TimesIsProduct(n, m);
    assert multiset(ClientHelpers.ModId(id))['_'] == n + 1;
    assert multiset(ModId(id))['_'] == n + n;
  }

  /** The addon shown before the input: a Bootstrap `input-group-addon` span, or nothing. */
  function BeforeAddon(r: FieldRenderer): string {
    if r.addonBefore != "" then "<span class=\"input-group-addon\">" + r.addonBefore + "</span>" else ""
  }

  /** The modifier badge: an `ability-score-mod badge` div with the given id and content. */
  function Badge(modId: string, content: string): string {
    "<div class=\"ability-score-mod badge\" id=\"" + modId + "\">" + content + "</div>"
  }

  /** The addon shown after the input: the modifier badge, carrying the renderer's badge
      id, inside an `as-mod-padding` div; or nothing. */
  function AfterAddon(r: FieldRenderer): string {
    if r.addonAfter != "" then "<div class=\"as-mod-padding\">" + (Badge(r.modId, r.addonAfter) + "</div>") else ""
  }

  /** `make_input_group` decorates the input only when an addon is set and the widget
      is one of the three input kinds. */
  predicate Decorates(r: FieldRenderer) {
    (r.addonBefore != "" || r.addonAfter != "") && r.widget != OtherWidget
  }

  /** `make_input_group`: the input's HTML, with the addons around it when it is decorated. */
  function MakeInputGroup(r: FieldRenderer, html: string): (out: string)
    ensures !Decorates(r) ==> out == html
    ensures Decorates(r) ==> out == BeforeAddon(r) + html + AfterAddon(r)
  {
    if (r.addonBefore != "" || r.addonAfter != "") && r.widget in {TextInput, DateInput, Select} then
      BeforeAddon(r) + html + AfterAddon(r)
    else html
  }

  /** The input's own HTML survives untouched as the middle of the result: cutting off
      the addons gives it back. */
  lemma MakeInputGroupKeepsHtml(r: FieldRenderer, html: string)
    ensures var out := MakeInputGroup(r, html);
      var before := if Decorates(r) then BeforeAddon(r) else "";
      var after := if Decorates(r) then AfterAddon(r) else "";
      |before| + |after| <= |out| && out[..|before|] == before && out[|out| - |after|..] == after
      && out[|before|..|out| - |after|] == html
  {
  }

  /** With an after-addon on a decorated field, the result ends with the modifier badge
      whose id is the one derived from the label id, and its padding div's end tag. */
  lemma MakeInputGroupBadgeId(idForLabel: string, addonBefore: string, addonAfter: string, widget: WidgetKind, html: string)
    requires addonAfter != "" && widget != OtherWidget
    ensures EndsWith(MakeInputGroup(NewRenderer(idForLabel, addonBefore, addonAfter, widget), html),
                     Badge(ModId(idForLabel), addonAfter) + "</div>")
  {
    var r := NewRenderer(idForLabel, addonBefore, addonAfter, widget);
    var tail := Badge(ModId(idForLabel), addonAfter) + "</div>";
    EndsWithConcat("<div class=\"as-mod-padding\">", tail);
    EndsWithExtend(BeforeAddon(r) + html, AfterAddon(r), tail);
  }

  /** The first half of `wrap_label_and_field`: the field's HTML inside one `<div>`. */
  function WrapLabelAndField(html: string): (r: string)
    ensures |r| == |html| + 11
    ensures r[..5] == "<div>" && EndsWith(r, "</div>") && r[5..|r| - 6] == html
  {
    "<div>" + html + "</div>"
  }
}
