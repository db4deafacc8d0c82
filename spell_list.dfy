/** The spell-list page script (spell_list.js): the sort key of the level column, the
    school-and-level label of the spell dialog, and the class and level filters that
    hide table rows. */
module SpellList {
  import opened Wrappers
  import opened Strings

  // ---------------------------------------------------------------------------
  // Level values and labels

  /** A level as the script receives it: the text "Cantrip" (or any other text) or a number.
      JavaScript's `===` never equates a text with a number. */
  datatype LevelValue = Text(text: string) | Number(n: int)

  /** JavaScript's `String(level)`, as `+` applies it when joining a level to a string. */
  function LevelText(level: LevelValue): string {
    match level
    case Text(t) => t
    case Number(n) => IntToString(n)
  }

  /** The `num-pre` key of the level column: "Cantrip" sorts as 0, anything else as itself. */
  function SortKey(d: LevelValue): (k: LevelValue)
    ensures d == Text("Cantrip") ==> k == Number(0)
    ensures d != Text("Cantrip") ==> k == d
  {
    if d == Text("Cantrip") then Number(0) else d
  }

  /** Applying the key to its own output changes nothing more. */
  lemma SortKeyIdempotent(d: LevelValue)
    ensures SortKey(SortKey(d)) == SortKey(d)
  {
  }

  const RitualSuffix: string := " (ritual)"

  /** `combine_school_level`: the label shown under a spell's name in its dialog. */
  function CombineSchoolLevel(level: LevelValue, school: string, ritual: bool): (r: string)
    ensures ritual ==> EndsWith(r, RitualSuffix)
  {
    var ret :=
      if level == Text("Cantrip") then school + " Cantrip"
      else if level == Number(1) then "1st level " + school
      else if level == Number(2) then "2nd level " + school
      else if level == Number(3) then "3rd level " + school
      else LevelText(level) + "th level " + school;
    if ritual then ret + RitualSuffix else ret
  }

  lemma CantripLabel(school: string)
    ensures CombineSchoolLevel(Text("Cantrip"), school, false) == school + " Cantrip"
  {
  }

  /** Levels 1 to 3 get their English ordinal; every other number gets `th`. */
  lemma NumberedLabel(n: int, school: string)
    ensures CombineSchoolLevel(Number(1), school, false) == "1st level " + school
    ensures CombineSchoolLevel(Number(2), school, false) == "2nd level " + school
    ensures CombineSchoolLevel(Number(3), school, false) == "3rd level " + school
    ensures n != 1 && n != 2 && n != 3 ==> CombineSchoolLevel(Number(n), school, false) == IntToString(n) + "th level " + school
  {
  }

  /** The `switch` compares with `===`, so the text "2" is not the number 2. */
  lemma TextLevelIsNotOrdinal(t: string, school: string)
    requires t != "Cantrip"
    ensures CombineSchoolLevel(Text(t), school, false) == t + "th level " + school
  {
  }

  lemma TextTwoLabel()
    ensures CombineSchoolLevel(Text("2"), "Evocation", false) == "2th level Evocation"
  {
    TextLevelIsNotOrdinal("2", "Evocation");
  }

  /** The ritual marker is only appended: the rest of the label does not depend on it. */
  lemma RitualOnlyAppends(level: LevelValue, school: string)
    ensures CombineSchoolLevel(level, school, true) == CombineSchoolLevel(level, school, false) + RitualSuffix
  {
  }

  /** A label ends in " (ritual)" exactly for ritual spells, as long as the school name
      does not itself end in "(ritual)". */
  lemma RitualSuffixIff(level: LevelValue, school: string, ritual: bool)
    requires !EndsWith(school, "(ritual)")
    ensures EndsWith(CombineSchoolLevel(level, school, ritual), RitualSuffix) <==> ritual
  {
    if !ritual {
      if level == Text("Cantrip") {
        var r := school + " Cantrip";
        assert r[|r| - 1] == 'p';
      } else if level == Number(1) {
        SpaceThenSchool("1st level ", school);
      } else if level == Number(2) {
        SpaceThenSchool("2nd level ", school);
      } else if level == Number(3) {
        SpaceThenSchool("3rd level ", school);
      } else {
        var prefix := LevelText(level) + "th level ";
        assert LevelText(level) + "th level " + school == prefix + school;
        SpaceThenSchool(prefix, school);
      }
    }
  }

  /** Text ending in a space, followed by a school name that does not end in
      "(ritual)", does not end in " (ritual)". */
  lemma SpaceThenSchool(prefix: string, school: string)
    requires |prefix| > 0 && prefix[|prefix| - 1] == ' '
    requires !EndsWith(school, "(ritual)")
    ensures !EndsWith(prefix + school, RitualSuffix)
  {
    assert RitualSuffix == [' '] + "(ritual)";
    SpaceBeforeSuffix(prefix, school, "(ritual)");
  }

  /** With school and ritual fixed, the label of a numeric level determines the level. */
  lemma NumberedLabelInjective(n1: int, n2: int, school: string, ritual: bool)
    requires CombineSchoolLevel(Number(n1), school, ritual) == CombineSchoolLevel(Number(n2), school, ritual)
    ensures n1 == n2
  {
    RitualOnlyAppends(Number(n1), school);
    RitualOnlyAppends(Number(n2), school);
    var a := CombineSchoolLevel(Number(n1), school, false);
    var b := CombineSchoolLevel(Number(n2), school, false);
    assert a == b by {
      var ra := CombineSchoolLevel(Number(n1), school, ritual);
      if ritual {
        assert a == ra[..|ra| - |RitualSuffix|];
        assert b == ra[..|ra| - |RitualSuffix|];
      }
    }
    var special := {1, 2, 3};
    if n1 !in special && n2 !in special {
      assert a == IntToString(n1) + "th level " + school;
      assert b == IntToString(n2) + "th level " + school;
      assert IntToString(n1) == a[..|a| - |school| - 9] == IntToString(n2);
      IntToStringInjective(n1, n2);
    } else if n1 in special && n2 !in special {
      OrdinalIsNotDefault(n1, n2, school);
    } else if n2 in special && n1 !in special {
      OrdinalIsNotDefault(n2, n1, school);
    } else {
      assert a[0] == b[0];
    }
  }

  /** "1st", "2nd" and "3rd" labels never coincide with a `th` label: the second
      character of the `th` label, at equal length, is the `t`. */
  lemma OrdinalIsNotDefault(n: int, m: int, school: string)
    requires n in {1, 2, 3} && m !in {1, 2, 3}
    ensures CombineSchoolLevel(Number(n), school, false) != CombineSchoolLevel(Number(m), school, false)
  {
    var a := CombineSchoolLevel(Number(n), school, false);
    var b := CombineSchoolLevel(Number(m), school, false);
    var d := IntToString(m);
    assert b == d + "th level " + school;
    if |a| == |b| {
      assert |d| == 1;
      assert b[1] == 't';
      assert a[1] != 't';
    }
  }

  // ---------------------------------------------------------------------------
  // Choosing a filter from the clicked link's id

  predicate IsLineTerminator(ch: char) {
    ch == '\n' || ch == '\r' || ch == '\U{2028}' || ch == '\U{2029}'
  }

  /** The pattern `prefix(.+)$` matches `id` at `k`: `prefix` stands at `k` and is followed
      by a non-empty run of non-line-terminators that reaches the end of `id`. */
  ghost predicate MatchesAt(id: string, prefix: string, k: nat) {
    OccursAt(id, prefix, k) && k + |prefix| < |id|
    && forall i :: k + |prefix| <= i < |id| ==> !IsLineTerminator(id[i])
  }

  /** `id.match(/prefix(.+)$/)[1]`, searched from index `k`: the captured text of the
      leftmost match, or None when there is none (where the script then throws). */
  function SuffixFrom(id: string, prefix: string, k: nat): (r: Option<string>)
    requires k <= |id|
    ensures r.None? <==> forall j: nat :: k <= j ==> !MatchesAt(id, prefix, j)
    ensures r.Some? ==> exists j: nat :: (k <= j && MatchesAt(id, prefix, j) && r.value == id[j + |prefix|..]
      && forall i: nat :: k <= i < j ==> !MatchesAt(id, prefix, i))
    decreases |id| - k
  {
    if OccursAt(id, prefix, k) && k + |prefix| < |id|
       && forall i :: k + |prefix| <= i < |id| ==> !IsLineTerminator(id[i])
    then
      assert MatchesAt(id, prefix, k);
      Some(id[k + |prefix|..])
    else if k == |id| then None
    else SuffixFrom(id, prefix, k + 1)
  }

  function IdSuffix(id: string, prefix: string): (r: Option<string>)
    ensures r.None? <==> forall j: nat :: !MatchesAt(id, prefix, j)
    ensures r.Some? ==> |r.value| > 0
  {
    SuffixFrom(id, prefix, 0)
  }

  /** Round trip: a link id made of the prefix and a one-line name yields that name. */
  lemma IdSuffixRoundTrip(prefix: string, name: string)
    requires |name| > 0
    requires forall i :: 0 <= i < |name| ==> !IsLineTerminator(name[i])
    ensures IdSuffix(prefix + name, prefix) == Some(name)
  {
    var id := prefix + name;
    assert id[..|prefix|] == prefix;
    assert id[|prefix|..] == name;
    assert MatchesAt(id, prefix, 0);
  }

  const ClassFilterPrefix: string := "class_filter_"
  const LevelFilterPrefix: string := "level_filter_"
  const AnyChoice: string := "any"

  // ---------------------------------------------------------------------------
  // Filters and row visibility

  /** One entry of the class API's response: a spell the class can cast. */
  datatype SpellClassEntry = SpellClassEntry(spell: string)

  /** `filters.cls`: the chosen class and the names of its spells. */
  datatype ClassFilter = ClassFilter(cls: string, spells: set<string>)

  /** The filter state as a value: `filters.cls` and `filters.lvl`, each possibly absent. */
  datatype FilterState = FilterState(cls: Option<ClassFilter>, lvl: Option<string>)

  /** A table row as `apply_filters` reads it: the texts of its `.name` and `.lvl` cells. */
  datatype Row = Row(name: string, lvl: string)

  /** The names collected from the class API's response (`acc[x.spell] = true`). */
  function SpellNames(response: seq<SpellClassEntry>): (names: set<string>)
    ensures forall e :: e in response ==> e.spell in names
    ensures forall n :: n in names ==> exists e :: e in response && e.spell == n
  {
    set e | e in response :: e.spell
  }

  /** A row is shown when it passes both filters; an absent filter passes every row. */
  predicate Visible(f: FilterState, row: Row) {
    (f.cls.None? || row.name in f.cls.value.spells) && (f.lvl.None? || f.lvl.value == row.lvl)
  }

  /** The `hidden` flag of every row under `f`; each depends on its own row only. */
  function HiddenFlags(f: FilterState, rows: seq<Row>): (flags: seq<bool>)
    ensures |flags| == |rows|
  {
    seq(|rows|, i requires 0 <= i < |rows| => !Visible(f, rows[i]))
  }

  lemma NoFiltersHideNothing(rows: seq<Row>)
    ensures forall i :: 0 <= i < |rows| ==> !HiddenFlags(FilterState(None, None), rows)[i]
  {
  }

  /** `g` filters at least as strictly as `f`: every filter `f` has, `g` has too, with
      no more spells for the class and the same level. */
  predicate Narrows(g: FilterState, f: FilterState) {
    (f.cls.Some? ==> g.cls.Some? && g.cls.value.spells <= f.cls.value.spells)
    && (f.lvl.Some? ==> g.lvl == f.lvl)
  }

  /** Adding or narrowing a filter never shows a row that was hidden. */
  lemma NarrowingNeverShows(g: FilterState, f: FilterState, rows: seq<Row>)
    requires Narrows(g, f)
    ensures forall i :: 0 <= i < |rows| && HiddenFlags(f, rows)[i] ==> HiddenFlags(g, rows)[i]
  {
  }

  /** Whether a row is hidden depends only on its name and level, not on its position. */
  lemma HiddenDependsOnRowOnly(f: FilterState, rows: seq<Row>, others: seq<Row>, i: nat, j: nat)
    requires i < |rows| && j < |others| && rows[i] == others[j]
    ensures HiddenFlags(f, rows)[i] == HiddenFlags(f, others)[j]
  {
  }

  /** The page's global `filters` object, which starts out empty. */
  class Filters {
    var cls: Option<ClassFilter>
    var lvl: Option<string>

    constructor ()
      ensures cls == None && lvl == None
    {
      cls := None;
      lvl := None;
    }

    function State(): FilterState
      reads this
    {
      FilterState(cls, lvl)
    }

    /** `apply_filters`: marks every row of the table hidden or shown, in place. */
    method ApplyFilters(rows: seq<Row>, hidden: array<bool>)
      requires hidden.Length == |rows|
      modifies hidden
      ensures hidden[..] == HiddenFlags(State(), rows)
    {
      var i := 0;
      while i < hidden.Length
        invariant 0 <= i <= hidden.Length
        invariant forall j :: 0 <= j < i ==> hidden[j] == !Visible(State(), rows[j])
      {
        var name := rows[i].name;
        var rowLvl := rows[i].lvl;
        if (cls.None? || name in cls.value.spells) && (lvl.None? || lvl.value == rowLvl) {
          hidden[i] := false;
        } else {
          hidden[i] := true;
        }
        i := i + 1;
      }
    }

    /** The click handler of a class link, with the class API's answer already at hand
        (None when the request fails and its `done` callback never runs). */
    method ChooseClass(id: string, response: Option<seq<SpellClassEntry>>, rows: seq<Row>, hidden: array<bool>)
      requires hidden.Length == |rows|
      modifies this, hidden
      ensures lvl == old(lvl)
      ensures var choice := IdSuffix(id, ClassFilterPrefix);
        if choice == Some(AnyChoice) then
          cls == None && hidden[..] == HiddenFlags(State(), rows)
        else if choice.None? || response.None?
                || (old(cls).Some? && old(cls).value.cls == choice.value) then
          cls == old(cls) && hidden[..] == old(hidden[..])
        else
          cls == Some(ClassFilter(choice.value, SpellNames(response.value)))
          && hidden[..] == HiddenFlags(State(), rows)
    {
      var choice := IdSuffix(id, ClassFilterPrefix);
      if choice.None? {
        return;
      }
      var c := choice.value;
      if c == AnyChoice {
        cls := None;
        ApplyFilters(rows, hidden);
      } else if cls.None? || c != cls.value.cls {
        if response.Some? {
          cls := Some(ClassFilter(c, SpellNames(response.value)));
          ApplyFilters(rows, hidden);
        }
      }
    }

    /** The click handler of a level link. */
    method ChooseLevel(id: string, rows: seq<Row>, hidden: array<bool>)
      requires hidden.Length == |rows|
      modifies this, hidden
      ensures cls == old(cls)
      ensures var choice := IdSuffix(id, LevelFilterPrefix);
        if choice.None? then
          lvl == old(lvl) && hidden[..] == old(hidden[..])
        else
          lvl == (if choice.value == AnyChoice then None else choice)
          && hidden[..] == HiddenFlags(State(), rows)
    {
      var choice := IdSuffix(id, LevelFilterPrefix);
      if choice.None? {
        return;
      }
      var l := choice.value;
      if l == AnyChoice {
        lvl := None;
      } else {
        lvl := Some(l);
      }
      ApplyFilters(rows, hidden);
    }
  }
}
