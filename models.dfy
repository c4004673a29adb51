/**
 * The domain values: a spell card, a deck of cards and the filter options a
 * deck is built from, all immutable. Datatype equality is structural over every
 * field, as for the frozen dataclasses they model.
 */
module Models {
  import opened Wrappers
  import opened Json

  datatype SpellCard = SpellCard(
    name: string,
    level: int,
    school: string,
    classes: seq<string>,
    description: string,
    duration: string,
    artPath: Option<string>)

  datatype Deck = Deck(name: string, cards: seq<SpellCard>, version: string)

  datatype DeckOptions = DeckOptions(
    classes: seq<string>,
    levels: seq<int>,
    schools: seq<string>,
    name: string)

  /** The schema tag a deck gets when none is given. */
  const DefaultVersion := "v1"

  /** The deck name options get when none is given. */
  const UntitledDeck := "Untitled Deck"

  /** The field names of a card, as `card.__dict__` spells them. */
  const CardFields: set<string> :=
    {"name", "level", "school", "classes", "description", "duration", "art_path"}

  /** The card fields without a default value. */
  const RequiredCardFields: set<string> := CardFields - {"art_path"}

  /** `SpellCard(...)` with the six required fields: no art. */
  function NewCard(name: string, level: int, school: string, classes: seq<string>,
                   description: string, duration: string): (c: SpellCard)
    ensures c.artPath == None
    ensures c.name == name && c.level == level && c.school == school
    ensures c.classes == classes && c.description == description && c.duration == duration
  {
    SpellCard(name, level, school, classes, description, duration, None)
  }

  /** `Deck(name=..., cards=...)`: the version defaults to "v1". */
  function NewDeck(name: string, cards: seq<SpellCard>): (d: Deck)
    ensures d.version == "v1"
    ensures d.name == name && d.cards == cards
  {
    Deck(name, cards, DefaultVersion)
  }

  /** `DeckOptions()`: no constraint on any dimension, and the untitled name. */
  function DefaultOptions(): (o: DeckOptions)
    ensures o.classes == [] && o.levels == [] && o.schools == []
    ensures o.name == "Untitled Deck"
  {
    DeckOptions([], [], [], UntitledDeck)
  }

  /** `card.__dict__`: one entry per field, `art_path` as null when there is no art. */
  function CardToJson(c: SpellCard): (j: Json)
    ensures j.JObject? && j.fields.Keys == CardFields
    ensures j.fields["name"] == JString(c.name) && j.fields["level"] == JInt(c.level)
    ensures j.fields["school"] == JString(c.school) && j.fields["classes"] == Strings(c.classes)
    ensures j.fields["description"] == JString(c.description)
    ensures j.fields["duration"] == JString(c.duration)
    ensures j.fields["art_path"] == (if c.artPath.Some? then JString(c.artPath.value) else JNull)
  {
    JObject(map[
      "name" := JString(c.name),
      "level" := JInt(c.level),
      "school" := JString(c.school),
      "classes" := Strings(c.classes),
      "description" := JString(c.description),
      "duration" := JString(c.duration),
      "art_path" := match c.artPath
                    case Some(p) => JString(p)
                    case None => JNull
    ])
  }

  /** `Deck.to_dict()`: exactly the keys name, version and cards; the cards in deck order. */
  function ToDict(d: Deck): (j: Json)
    ensures j.JObject? && j.fields.Keys == {"name", "version", "cards"}
    ensures j.fields["name"] == JString(d.name) && j.fields["version"] == JString(d.version)
    ensures j.fields["cards"].JArray? && |j.fields["cards"].items| == |d.cards|
    ensures forall i :: 0 <= i < |d.cards| ==> j.fields["cards"].items[i] == CardToJson(d.cards[i])
  {
    JObject(map[
      "name" := JString(d.name),
      "version" := JString(d.version),
      "cards" := JArray(seq(|d.cards|, i requires 0 <= i < |d.cards| => CardToJson(d.cards[i])))
    ])
  }
}
