/**
 * The deck builder: keeps the catalog records that pass every filter of the
 * options, in catalog order, and maps each survivor to a card.
 */
module DeckBuilder {
  import opened Wrappers
  import opened Seqs
  import opened Models

  /** A catalog record; `None` stands for a key the record does not have.
      Keys other than these six are ignored by the builder. */
  datatype SpellRecord = SpellRecord(
    name: Option<string>,
    level: Option<int>,
    school: Option<string>,
    classes: Option<seq<string>>,
    desc: Option<string>,
    duration: Option<string>)

  /** The class dimension: no constraint, or some option class is one of the
      record's classes (a record without classes has none). */
  predicate PassesClasses(s: SpellRecord, o: DeckOptions)
  {
    o.classes == [] || exists c :: c in o.classes && c in s.classes.GetOr([])
  }

  /** The level dimension: no constraint, or the record has a level that is listed. */
  predicate PassesLevels(s: SpellRecord, o: DeckOptions)
  {
    o.levels == [] || (s.level.Some? && s.level.value in o.levels)
  }

  /** The school dimension: no constraint, or the record has a school that is listed. */
  predicate PassesSchools(s: SpellRecord, o: DeckOptions)
  {
    o.schools == [] || (s.school.Some? && s.school.value in o.schools)
  }

  /** A record is kept when it passes all three dimensions. */
  predicate Keep(s: SpellRecord, o: DeckOptions)
  {
    PassesClasses(s, o) && PassesLevels(s, o) && PassesSchools(s, o)
  }

  /** `_apply_filters`: the kept records, in catalog order. The result is the
      unique subsequence of the catalog that holds every kept record and nothing else. */
  function ApplyFilters(spells: seq<SpellRecord>, o: DeckOptions): seq<SpellRecord>
  {
    if spells == [] then []
    else
      var rest := ApplyFilters(spells[1..], o);
      if Keep(spells[0], o) then [spells[0]] + rest else rest
  }

  /** The filtered list is a subsequence of the catalog, holds only kept records,
      and holds every kept record as often as the catalog does. */
  lemma {:induction false} FilterSpec(spells: seq<SpellRecord>, o: DeckOptions)
    ensures IsSubsequence(ApplyFilters(spells, o), spells)
    ensures forall x :: x in ApplyFilters(spells, o) ==> Keep(x, o)
    ensures forall x :: multiset(ApplyFilters(spells, o))[x] == if Keep(x, o) then multiset(spells)[x] else 0
  {
    if spells != [] {
      FilterSpec(spells[1..], o);
      assert spells == [spells[0]] + spells[1..];
      var rest := ApplyFilters(spells[1..], o);
      if Keep(spells[0], o) {
        assert ([spells[0]] + rest)[1..] == rest;
      }
    }
  }

  /** `_to_card`: each missing field gets its own default, `desc` becomes the
      description, and the card has no art. */
  function ToCard(s: SpellRecord): (c: SpellCard)
    ensures c.name == (if s.name.Some? then s.name.value else "Unknown")
    ensures c.level == (if s.level.Some? then s.level.value else 0)
    ensures c.school == (if s.school.Some? then s.school.value else "Unknown")
    ensures c.classes == (if s.classes.Some? then s.classes.value else [])
    ensures c.description == (if s.desc.Some? then s.desc.value else "")
    ensures c.duration == (if s.duration.Some? then s.duration.value else "Instantaneous")
    ensures c.artPath == None
  {
    NewCard(
      s.name.GetOr("Unknown"),
      s.level.GetOr(0),
      s.school.GetOr("Unknown"),
      s.classes.GetOr([]),
      s.desc.GetOr(""),
      s.duration.GetOr("Instantaneous"))
  }

  /** `[_to_card(s) for s in records]`. */
  function ToCards(records: seq<SpellRecord>): (cards: seq<SpellCard>)
  {
    seq(|records|, i requires 0 <= i < |records| => ToCard(records[i]))
  }

  /** `build`: the catalog stands for what the repository's `load_all_spells` returns.
      The deck is named after the options, has version "v1", and holds one card
      per kept record, in catalog order. */
  function Build(catalog: seq<SpellRecord>, o: DeckOptions): (d: Deck)
    ensures d.name == o.name && d.version == "v1"
    ensures |d.cards| == |ApplyFilters(catalog, o)|
    ensures forall i :: 0 <= i < |d.cards| ==> d.cards[i] == ToCard(ApplyFilters(catalog, o)[i])
  {
    NewDeck(o.name, ToCards(ApplyFilters(catalog, o)))
  }

  /** The record a card comes from when every field was present: the inverse of `ToCard`. */
  function RecordOf(c: SpellCard): SpellRecord
  {
    SpellRecord(Some(c.name), Some(c.level), Some(c.school), Some(c.classes), Some(c.description), Some(c.duration))
  }

  predicate Complete(s: SpellRecord)
  {
    s.name.Some? && s.level.Some? && s.school.Some? && s.classes.Some? && s.desc.Some? && s.duration.Some?
  }

  /** On records with every field, `ToCard` only renames `desc`: it loses nothing. */
  lemma ToCardInvertible(s: SpellRecord, c: SpellCard)
    ensures Complete(s) ==> RecordOf(ToCard(s)) == s
    ensures c.artPath == None ==> ToCard(RecordOf(c)) == c
  {
  }

  /** With no constraint on any dimension every record is kept. */
  lemma {:induction false} NoFiltersKeepsAll(spells: seq<SpellRecord>, o: DeckOptions)
    requires o.classes == [] && o.levels == [] && o.schools == []
    ensures ApplyFilters(spells, o) == spells
  {
    if spells != [] {
      NoFiltersKeepsAll(spells[1..], o);
      assert spells == [spells[0]] + spells[1..];
    }
  }

  /** With no constraint on any dimension the cards correspond one-to-one to the
      catalog, in catalog order. */
  lemma BuildUnfiltered(catalog: seq<SpellRecord>, o: DeckOptions)
    requires o.classes == [] && o.levels == [] && o.schools == []
    ensures |Build(catalog, o).cards| == |catalog|
    ensures forall i :: 0 <= i < |catalog| ==> Build(catalog, o).cards[i] == ToCard(catalog[i])
  {
    NoFiltersKeepsAll(catalog, o);
  }

  /** A kept record of the catalog is in the filtered list and a dropped one is not. */
  lemma FilterMembership(spells: seq<SpellRecord>, o: DeckOptions, x: SpellRecord)
    ensures x in ApplyFilters(spells, o) <==> x in spells && Keep(x, o)
  {
    var r := ApplyFilters(spells, o);
    FilterSpec(spells, o);
    assert x in r <==> multiset(r)[x] > 0;
    assert x in spells <==> multiset(spells)[x] > 0;
  }

  /** Every card of a built deck is the card of some kept catalog record. */
  lemma BuildCardsFromCatalog(catalog: seq<SpellRecord>, o: DeckOptions, i: nat)
    requires i < |Build(catalog, o).cards|
    ensures exists s :: s in catalog && Keep(s, o) && Build(catalog, o).cards[i] == ToCard(s)
  {
    var s := ApplyFilters(catalog, o)[i];
    FilterMembership(catalog, o, s);
  }

  /** A record lacking `classes` fails any non-empty class filter; one lacking
      `level` fails any non-empty level filter even though its card would get level 0;
      one lacking `school` fails a non-empty school filter even when "Unknown" is listed. */
  lemma MissingFieldsFailFilters(s: SpellRecord, o: DeckOptions)
    ensures s.classes.None? && o.classes != [] ==> !Keep(s, o)
    ensures s.level.None? && o.levels != [] ==> !Keep(s, o)
    ensures s.school.None? && o.schools != [] ==> !Keep(s, o)
  {
  }

  /** The class filter matches names exactly: a record whose classes do not
      contain any listed class is dropped. */
  lemma ClassFilterExact(s: SpellRecord, o: DeckOptions)
    requires o.classes != [] && s.classes.Some?
    requires forall c :: c in o.classes ==> c !in s.classes.value
    ensures !Keep(s, o)
  {
  }

  const Fireball := SpellRecord(Some("Fireball"), Some(3), Some("Evocation"), Some(["Wizard", "Sorcerer"]), Some("Boom."), Some("Instant"))
  const CureWounds := SpellRecord(Some("Cure Wounds"), Some(1), Some("Evocation"), Some(["Cleric"]), Some("Heals HP."), Some("Instant"))
  const Invisibility := SpellRecord(Some("Invisibility"), Some(2), Some("Illusion"), Some(["Wizard"]), Some("Become unseen."), Some("1 hour"))

  const SampleCatalog := [Fireball, CureWounds, Invisibility]

  /** Filtering the sample catalog, one record at a time. */
  lemma FilterSample(o: DeckOptions)
    ensures ApplyFilters(SampleCatalog, o)
         == Kept(Fireball, o) + (Kept(CureWounds, o) + (Kept(Invisibility, o) + []))
  {
    FilterCons(Invisibility, [], o);
    assert [Invisibility] + [] == [Invisibility];
    FilterCons(CureWounds, [Invisibility], o);
    assert [CureWounds] + [Invisibility] == [CureWounds, Invisibility];
    FilterCons(Fireball, [CureWounds, Invisibility], o);
    assert [Fireball] + [CureWounds, Invisibility] == SampleCatalog;
  }

  /** What one record contributes to the filtered list. */
  function Kept(x: SpellRecord, o: DeckOptions): seq<SpellRecord>
  {
    if Keep(x, o) then [x] else []
  }

  lemma FilterCons(x: SpellRecord, rest: seq<SpellRecord>, o: DeckOptions)
    ensures ApplyFilters([x] + rest, o) == Kept(x, o) + ApplyFilters(rest, o)
  {
    assert ([x] + rest)[1..] == rest;
  }

  /** On the sample catalog, filtering by class "Cleric" leaves only "Cure Wounds". */
  lemma SampleClassFilter()
    ensures var d := Build(SampleCatalog, DeckOptions(["Cleric"], [], [], UntitledDeck));
            |d.cards| == 1 && d.cards[0].name == "Cure Wounds"
  {
    var o := DeckOptions(["Cleric"], [], [], UntitledDeck);
    assert !Keep(Fireball, o);
    assert "Cleric" in CureWounds.classes.value;
    assert Keep(CureWounds, o);
    assert !Keep(Invisibility, o);
    FilterSample(o);
  }

  /** On the sample catalog, filtering by level 3 leaves only "Fireball". */
  lemma SampleLevelFilter()
    ensures var d := Build(SampleCatalog, DeckOptions([], [3], [], UntitledDeck));
            |d.cards| == 1 && d.cards[0].name == "Fireball"
  {
    var o := DeckOptions([], [3], [], UntitledDeck);
    assert Keep(Fireball, o) && !Keep(CureWounds, o) && !Keep(Invisibility, o);
    FilterSample(o);
  }

  /** On the sample catalog, filtering by school "Illusion" leaves only "Invisibility". */
  lemma SampleSchoolFilter()
    ensures var d := Build(SampleCatalog, DeckOptions([], [], ["Illusion"], UntitledDeck));
            |d.cards| == 1 && d.cards[0].name == "Invisibility"
  {
    var o := DeckOptions([], [], ["Illusion"], UntitledDeck);
    assert !Keep(Fireball, o) && !Keep(CureWounds, o) && Keep(Invisibility, o);
    FilterSample(o);
  }
}
