/** Matching of requested, pending and staged update versions in `vc_patch`. */
module VersionMatch {
  import opened Basics
  import opened Strings

  /** The four version-like fields of an update record, as text; None when absent. */
  datatype Fields = Fields(version: Option<string>, name: Option<string>, id: Option<string>, display: Option<string>) {
    function All(): seq<Option<string>> {
      [version, name, id, display]
    }
  }

  /** What a staged-update response carries: nothing (an empty response, or an
      empty or missing value), a text, a record with those of its `update`,
      `info` and `summary` members that are records, or something else. */
  datatype Staged = Nothing | Text(text: string) | Record(own: Fields, nested: seq<Fields>) | Other

  /** Either is a prefix of the other; equal strings are. */
  predicate Comparable(a: string, b: string) {
    a <= b || b <= a
  }

  // ----- staged_matches -----

  function NestedFields(nested: seq<Fields>): seq<Option<string>> {
    if nested == [] then [] else nested[0].All() + NestedFields(nested[1..])
  }

  function Candidates(s: Staged): seq<Option<string>> {
    match s
    case Text(t) => [Some(t)]
    case Record(own, nested) => own.All() + NestedFields(nested)
    case _ => []
  }

  /** Empty candidates are skipped here. */
  predicate StagedMatches(s: Staged, version: Option<string>) {
    if s == Nothing || s == Text("") then false
    else if version.Or("") == "" then true
    else exists c :: c in Candidates(s) && c.Or("") != "" && Comparable(c.value, version.value)
  }

  // ----- _match_version -----

  /** An element of the pending list. */
  datatype Item = Dict(fields: Fields) | NotADict

  predicate ExactItem(item: Item, requested: string) {
    item.Dict? && Some(requested) in item.fields.All()
  }

  /** Empty candidates are not skipped here. */
  predicate ComparableItem(item: Item, requested: string) {
    item.Dict? && exists c :: c in item.fields.All() && c.Some? && Comparable(c.value, requested)
  }

  ghost predicate FirstWith(items: seq<Item>, p: Item -> bool, i: int) {
    0 <= i < |items| && p(items[i]) && forall j :: 0 <= j < i ==> !p(items[j])
  }

  /** `item` is the first exact one, or without exact ones the first comparable one. */
  ghost predicate IsMatch(items: seq<Item>, requested: string, item: Item) {
    if exists i :: 0 <= i < |items| && ExactItem(items[i], requested)
    then exists i :: FirstWith(items, item => ExactItem(item, requested), i) && item == items[i]
    else exists i :: FirstWith(items, item => ComparableItem(item, requested), i) && item == items[i]
  }

  /** Exact first: the first exact item wins over any earlier comparable one;
      without an exact item the first comparable one is returned; nothing is
      returned exactly when no item is comparable. */
  method MatchVersion(items: seq<Item>, requested: string) returns (r: Option<Item>)
    ensures r.Some? ==> r.value in items && ComparableItem(r.value, requested)
    ensures r == None <==> forall i :: 0 <= i < |items| ==> !ComparableItem(items[i], requested)
    ensures r.Some? ==> IsMatch(items, requested, r.value)
  {
    for i := 0 to |items|
      invariant forall j :: 0 <= j < i ==> !ExactItem(items[j], requested)
    {
      if ExactItem(items[i], requested) {
        assert Comparable(requested, requested);
        assert ComparableItem(items[i], requested);
        assert FirstWith(items, item => ExactItem(item, requested), i);
        return Some(items[i]);
      }
    }
    for i := 0 to |items|
      invariant forall j :: 0 <= j < i ==> !ComparableItem(items[j], requested)
    {
      if ComparableItem(items[i], requested) {
        assert FirstWith(items, item => ComparableItem(item, requested), i);
        return Some(items[i]);
      }
    }
    r := None;
  }

  ghost predicate HasEmptyField(f: Fields) {
    Some("") in f.All()
  }

  ghost predicate FieldMatches(f: Fields, requested: string) {
    exists c :: c in f.All() && c.Or("") != "" && Comparable(c.value, requested)
  }

  /** The two matchers differ only in empty fields: a pending item with an empty
      field is comparable with every request, the same record once staged only
      if another field is. They agree exactly when no field is empty or some
      non-empty one is comparable with the request. */
  lemma MatchersAgree(f: Fields, requested: string)
    requires requested != ""
    ensures StagedMatches(Record(f, []), Some(requested)) <==> FieldMatches(f, requested)
    ensures ComparableItem(Dict(f), requested) <==> FieldMatches(f, requested) || HasEmptyField(f)
    ensures (ComparableItem(Dict(f), requested) <==> StagedMatches(Record(f, []), Some(requested)))
      <==> (!HasEmptyField(f) || FieldMatches(f, requested))
  {
    assert Candidates(Record(f, [])) == f.All();
    if HasEmptyField(f) {
      assert Comparable("", requested);
    }
    if ComparableItem(Dict(f), requested) {
      var c :| c in f.All() && c.Some? && Comparable(c.value, requested);
      assert c.value != "" ==> FieldMatches(f, requested);
    }
  }

  /** A record with an empty name is taken for any pending version, and for none once staged. */
  lemma EmptyFieldDisagrees() returns (f: Fields)
    ensures ComparableItem(Dict(f), "8.0.3") && !StagedMatches(Record(f, []), Some("8.0.3"))
  {
    f := Fields(Some("7.0"), Some(""), None, None);
    assert f.All()[1] == Some("");
    assert "7.0"[0] != "8.0.3"[0];
    MatchersAgree(f, "8.0.3");
  }

  /** Some version-like field of the record holds the text. */
  ghost predicate Carries(f: Fields, text: string) {
    Some(text) in {f.version, f.name, f.id, f.display}
  }

  lemma AllCarry(f: Fields, c: string)
    ensures Some(c) in f.All() <==> Carries(f, c)
  {
    var all := f.All();
    assert all[0] == f.version && all[1] == f.name && all[2] == f.id && all[3] == f.display;
  }

  /** An item is exact when one of its four fields is the request, and comparable
      when one of them starts the request or is started by it. */
  lemma ItemsMatchByFields(f: Fields, requested: string)
    ensures ExactItem(Dict(f), requested) <==> Carries(f, requested)
    ensures ComparableItem(Dict(f), requested) <==> exists c :: Carries(f, c) && (c <= requested || requested <= c)
    ensures !ExactItem(NotADict, requested) && !ComparableItem(NotADict, requested)
  {
    hide Carries;
    AllCarry(f, requested);
    if ComparableItem(Dict(f), requested) {
      var c :| c in f.All() && c.Some? && Comparable(c.value, requested);
      AllCarry(f, c.value);
    }
    if c :| Carries(f, c) && (c <= requested || requested <= c) {
      AllCarry(f, c);
      assert Some(c).Some? && Comparable(Some(c).value, requested);
    }
  }

  lemma {:induction false} NestedFieldsAre(nested: seq<Fields>, c: string)
    ensures Some(c) in NestedFields(nested) <==> exists f :: f in nested && Carries(f, c)
  {
    hide Carries;
    if nested == [] {
    } else {
      NestedFieldsAre(nested[1..], c);
      AllCarry(nested[0], c);
      assert Some(c) in NestedFields(nested) <==> Carries(nested[0], c) || Some(c) in NestedFields(nested[1..]);
      assert nested == [nested[0]] + nested[1..];
    }
  }

  /** Nothing is staged by an empty response; anything else is, as long as no
      version is asked for. A version is staged by a text or by a record one of
      whose non-empty fields, own or nested, starts the version or is started by it. */
  lemma StagedByFields(t: string, own: Fields, nested: seq<Fields>, version: string)
    requires version != ""
    ensures !StagedMatches(Nothing, Some(version)) && !StagedMatches(Text(""), Some(version))
    ensures !StagedMatches(Other, Some(version))
    ensures StagedMatches(Text(t), Some(version)) <==> t != "" && (t <= version || version <= t)
    ensures StagedMatches(Record(own, nested), Some(version)) <==>
      exists f, c :: f in [own] + nested && Carries(f, c) && c != "" && (c <= version || version <= c)
  {
    hide Carries;
    var s := Record(own, nested);
    if StagedMatches(s, Some(version)) {
      var c :| c in Candidates(s) && c.Or("") != "" && Comparable(c.value, version);
      NestedFieldsAre(nested, c.value);
      AllCarry(own, c.value);
      if !Carries(own, c.value) {
        var f :| f in nested && Carries(f, c.value);
        assert f in [own] + nested;
      }
    }
    if f, c :| f in [own] + nested && Carries(f, c) && c != "" && (c <= version || version <= c) {
      NestedFieldsAre(nested, c);
      AllCarry(own, c);
      assert Some(c) in Candidates(s);
      assert Some(c).Or("") != "" && Comparable(c, version);
    }
    assert Candidates(Text(t)) == [Some(t)];
  }

  lemma AnythingStaged(s: Staged)
    ensures StagedMatches(s, None) == StagedMatches(s, Some("")) == (s != Nothing && s != Text(""))
  {
  }

  // ----- resolve_update_version -----

  /** The response that lists the pending updates: a dict with a list or a dict
      under `value`, a bare list, or something else. */
  datatype Pending =
    | UnderValue(items: seq<Item>)
    | DictUnderValue(entries: seq<(string, Item)>)
    | Listed(items: seq<Item>)
    | OtherPending

  function ExtractValues(p: Pending): (items: seq<Item>)
    ensures || p == UnderValue(items) || p == Listed(items) || (p == OtherPending && items == [])
            || (p.DictUnderValue? && |items| == |p.entries|
                && forall i :: 0 <= i < |items| ==> p.entries[i] == (p.entries[i].0, items[i]))
  {
    match p
    case UnderValue(items) => items
    case DictUnderValue(entries) => seq(|entries|, i requires 0 <= i < |entries| => entries[i].1)
    case Listed(items) => items
    case OtherPending => []
  }

  /** The record that comes with a version: what a lookup of it returned, or the listed item. */
  datatype Detail = LookedUp(version: string) | FromListing(item: Item)

  /** `listed` says whether the pending updates were read. */
  datatype Resolution =
    | Resolved(version: string, listed: bool, detail: Detail)
    | NoPending
    | NotFound
    | Unresolvable
    | NotARecord

  predicate Given(version: Option<string>) {
    version.Some? && Lower(version.value) !in {"", "none", "null"}
  }

  /** A version is given unless it is absent, empty, or the word none or null in
      capitals or not. */
  lemma GivenIs(version: Option<string>)
    ensures !Given(version) <==>
      version in {None, Some("")} || Spells(version.value, "none") || Spells(version.value, "null")
  {
    if version.Some? {
      LowerSpells(version.value, "none");
      LowerSpells(version.value, "null");
    }
  }

  /** The version a matched record is taken for: its first non-empty field of three. */
  function NameOf(f: Fields): string {
    if f.version.Or("") != "" then f.version.value
    else if f.name.Or("") != "" then f.name.value
    else f.id.Or("")
  }

  /** What a chosen item resolves to; `known` says which versions a lookup finds. */
  function ItemResolution(item: Item, known: string -> bool): Resolution {
    if item.NotADict? then NotARecord
    else
      var name := NameOf(item.fields);
      if name == "" then Unresolvable
      else Resolved(name, true, if known(name) then LookedUp(name) else FromListing(item))
  }

  /** What the resolution of a chosen item must be. Of a record's fields a non-empty
      version comes first, then a non-empty name, then a non-empty id, and only a
      record without all three is unresolvable; the detail is looked up when the
      resolved version is known and is the listed record otherwise. */
  ghost predicate ResolvesTo(item: Item, known: string -> bool, r: Resolution) {
    match item
    case NotADict => r == NotARecord
    case Dict(Fields(version, name, id, _)) =>
      if {version, name, id} <= {None, Some("")} then r == Unresolvable
      else
        && r.Resolved? && r.listed && r.version != ""
        && Some(r.version) == (if version !in {None, Some("")} then version
                               else if name !in {None, Some("")} then name else id)
        && (if known(r.version) then r.detail == LookedUp(r.version) else r.detail == FromListing(item))
  }

  /** A version that is given and found is taken at once; otherwise the pending
      updates are listed and one of them is chosen: the match of the version, or
      the first one when none is given. */
  method ResolveUpdateVersion(version: Option<string>, known: string -> bool, pending: Pending)
    returns (r: Resolution, chosen: Option<Item>)
    ensures var direct := Given(version) && known(version.value);
      var items := ExtractValues(pending);
      && (direct ==> r == Resolved(version.value, false, LookedUp(version.value)) && chosen == None)
      && (!direct ==>
            && (r == NoPending <==> items == [])
            && (items != [] ==>
                  && (r == NotFound <==>
                      Given(version) && forall i :: 0 <= i < |items| ==> !ComparableItem(items[i], version.value))
                  && (chosen == None <==> r == NotFound)
                  && (chosen.Some? ==> chosen.value in items && ResolvesTo(chosen.value, known, r))
                  && (chosen.Some? && !Given(version) ==> chosen.value == items[0])
                  && (chosen.Some? && Given(version) ==> IsMatch(items, version.value, chosen.value))))
  {
    chosen := None;
    if Given(version) && known(version.value) {
      return Resolved(version.value, false, LookedUp(version.value)), None;
    }
    var items := ExtractValues(pending);
    if items == [] {
      return NoPending, None;
    }
    if Given(version) {
      chosen := MatchVersion(items, version.value);
      if chosen == None {
        return NotFound, None;
      }
    } else {
      chosen := Some(items[0]);
    }
    r := ItemResolution(chosen.value, known);
  }

  /** A version resolved from a listed record is recognised once that record is
      staged, whatever records are nested in it. */
  lemma ResolvedIsRecognised(f: Fields, nested: seq<Fields>)
    requires NameOf(f) != ""
    ensures StagedMatches(Record(f, nested), Some(NameOf(f)))
  {
    var c := Some(NameOf(f));
    assert c in f.All();
    assert c in Candidates(Record(f, nested));
    assert Comparable(c.value, NameOf(f));
  }
}
