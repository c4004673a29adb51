/**
 * The build controller: turns the raw options dictionary from the command line
 * into deck options and hands them to the deck builder.
 */
module DeckController {
  import opened Wrappers
  import opened Models
  import opened DeckBuilder

  /** The options dictionary; `None` stands for an absent key. */
  datatype OptionsDict = OptionsDict(
    name: Option<string>,
    classes: Option<seq<string>>,
    levels: Option<seq<int>>,
    schools: Option<seq<string>>)

  /** The options built from the dictionary: present values verbatim, absent
      ones defaulted to the untitled name and empty lists. */
  function OptionsFromDict(d: OptionsDict): (o: DeckOptions)
    ensures d.name.Some? ==> o.name == d.name.value
    ensures d.name.None? ==> o.name == "Untitled Deck"
    ensures o.classes == (if d.classes.Some? then d.classes.value else [])
    ensures o.levels == (if d.levels.Some? then d.levels.value else [])
    ensures o.schools == (if d.schools.Some? then d.schools.value else [])
  {
    DeckOptions(d.classes.GetOr([]), d.levels.GetOr([]), d.schools.GetOr([]), d.name.GetOr(UntitledDeck))
  }

  /** `build_from_cli`: exactly one call of the builder on those options. */
  function BuildFromCli(catalog: seq<SpellRecord>, d: OptionsDict): (deck: Deck)
    ensures deck == Build(catalog, OptionsFromDict(d))
  {
    Build(catalog, OptionsFromDict(d))
  }

  /** An empty dictionary gives the same options as `DeckOptions()`, so the deck
      holds a card for every catalog record, in order, under the untitled name. */
  lemma EmptyDictBuildsEverything(catalog: seq<SpellRecord>)
    ensures OptionsFromDict(OptionsDict(None, None, None, None)) == DefaultOptions()
    ensures var deck := BuildFromCli(catalog, OptionsDict(None, None, None, None));
            deck.name == "Untitled Deck" && |deck.cards| == |catalog|
            && forall i :: 0 <= i < |catalog| ==> deck.cards[i] == ToCard(catalog[i])
  {
    BuildUnfiltered(catalog, DefaultOptions());
  }
}
