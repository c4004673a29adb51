/**
 * The JSON deck storage: `save` writes the deck's dictionary form to a path and
 * `load` rebuilds a deck from the document at a path, taking every field
 * verbatim. The file system is a map from paths to parsed JSON documents.
 */
module DeckStorage {
  import opened Wrappers
  import opened Json
  import opened Models
  import opened Seqs

  /** Paths to the JSON documents stored there. */
  type FileSystem = map<string, Json>

  datatype LoadError =
    | FileNotFound(path: string)          // no document at the path
    | NotSubscriptable                    // `data["name"]` on a value that is not an object
    | MissingKey(key: string)             // `data[key]` with no such key
    | NotIterable                         // `data["cards"]` cannot be iterated
    | CardNotMapping(index: nat)          // `SpellCard(**card)` on a value that is not an object
    | UnexpectedField(index: nat)         // a card key that is not a field of SpellCard
    | MissingField(index: nat)            // a card lacking one of the six required fields
    | DeckFieldType(key: string)          // name or version is not a string
    | CardFieldType(index: nat, key: string) // a card field of the wrong JSON type

  /** `save`: the document at `path` becomes the deck's `to_dict` form; nothing else changes. */
  function Save(fs: FileSystem, d: Deck, path: string): (fs': FileSystem)
    ensures fs'.Keys == fs.Keys + {path}
    ensures fs'[path] == ToDict(d)
    ensures forall q :: q in fs && q != path ==> fs'[q] == fs[q]
  {
    fs[path := ToDict(d)]
  }

  /** A JSON array of strings, read back. */
  function StringsOf(j: Json): (r: Option<seq<string>>)
    ensures r.Some? <==> j.JArray? && forall i :: 0 <= i < |j.items| ==> j.items[i].JString?
    ensures r.Some? ==> |r.value| == |j.items| && forall i :: 0 <= i < |j.items| ==> j.items[i] == JString(r.value[i])
  {
    if j.JArray? && forall i :: 0 <= i < |j.items| ==> j.items[i].JString? then
      Some(seq(|j.items|, i requires 0 <= i < |j.items| => j.items[i].s))
    else None
  }

  /** A string-valued card field. */
  function CardString(m: map<string, Json>, key: string, index: nat): Result<string, LoadError>
    requires key in m
  {
    if m[key].JString? then Ok(m[key].s) else Err(CardFieldType(index, key))
  }

  /** `SpellCard(**card)` for the card at position `index`: the object's keys must
      be field names of SpellCard, the six required ones must all be there, and an
      absent or null `art_path` means no art. */
  function CardFromJson(j: Json, index: nat): (r: Result<SpellCard, LoadError>)
    ensures !j.JObject? ==> r == Err(CardNotMapping(index))
    ensures j.JObject? && !(j.fields.Keys <= CardFields) ==> r == Err(UnexpectedField(index))
    ensures j.JObject? && j.fields.Keys <= CardFields && !(RequiredCardFields <= j.fields.Keys)
            ==> r == Err(MissingField(index))
    ensures r.Ok? ==> j.JObject? && RequiredCardFields <= j.fields.Keys <= CardFields
    ensures r.Ok? ==> var m := j.fields;
      && m["name"] == JString(r.value.name) && m["level"] == JInt(r.value.level)
      && m["school"] == JString(r.value.school) && m["classes"] == Strings(r.value.classes)
      && m["description"] == JString(r.value.description) && m["duration"] == JString(r.value.duration)
      && (r.value.artPath.None? <==> "art_path" !in m || m["art_path"] == JNull)
      && (r.value.artPath.Some? ==> m["art_path"] == JString(r.value.artPath.value))
  {
    if !j.JObject? then Err(CardNotMapping(index))
    else
      var m := j.fields;
      if !(m.Keys <= CardFields) then Err(UnexpectedField(index))
      else if !(RequiredCardFields <= m.Keys) then Err(MissingField(index))
      else
        var name :- CardString(m, "name", index);
        var level :- if m["level"].JInt? then Ok(m["level"].i) else Err(CardFieldType(index, "level"));
        var school :- CardString(m, "school", index);
        var classes :- match StringsOf(m["classes"])
                       case Some(cs) => Ok(cs)
                       case None => Err(CardFieldType(index, "classes"));
        var description :- CardString(m, "description", index);
        var duration :- CardString(m, "duration", index);
        var art :- if "art_path" !in m || m["art_path"] == JNull then Ok(None)
                   else if m["art_path"].JString? then Ok(Some(m["art_path"].s))
                   else Err(CardFieldType(index, "art_path"));
        assert m["classes"] == Strings(classes);
        Ok(SpellCard(name, level, school, classes, description, duration, art))
  }

  /** The cards of `items[from..]`, stopping at the first one that fails. */
  function CardsFrom(items: seq<Json>, from: nat): (r: Result<seq<SpellCard>, LoadError>)
    requires from <= |items|
    decreases |items| - from
    ensures r.Ok? ==> |r.value| == |items| - from
    ensures r.Ok? ==> forall i :: from <= i < |items| ==> CardFromJson(items[i], i) == Ok(r.value[i - from])
    ensures r.Err? ==> exists i :: from <= i < |items| && CardFromJson(items[i], i) == Err(r.error)
  {
    if from == |items| then Ok([])
    else
      var card :- CardFromJson(items[from], from);
      var rest :- CardsFrom(items, from + 1);
      Ok([card] + rest)
  }

  /** `[SpellCard(**card) for card in data["cards"]]`: an array gives its cards in
      order; an empty object or empty string iterates nothing; a non-empty object or
      string iterates keys or characters, which are not mappings; anything else
      cannot be iterated. */
  function CardsOf(j: Json): (r: Result<seq<SpellCard>, LoadError>)
    ensures j.JArray? ==> r == CardsFrom(j.items, 0)
    ensures (j.JObject? && j.fields == map[]) || j == JString("") ==> r == Ok([])
    ensures j.JNull? || j.JBool? || j.JInt? ==> r == Err(NotIterable)
  {
    match j
    case JArray(items) => CardsFrom(items, 0)
    case JObject(m) => if m == map[] then Ok([]) else Err(CardNotMapping(0))
    case JString(s) => if s == "" then Ok([]) else Err(CardNotMapping(0))
    case _ => Err(NotIterable)
  }

  /** A string-valued deck field, once every key is known to be present. */
  function DeckString(m: map<string, Json>, key: string): Result<string, LoadError>
    requires key in m
  {
    if m[key].JString? then Ok(m[key].s) else Err(DeckFieldType(key))
  }

  /** The deck a parsed document describes. As in the call to `Deck`, the keys
      name, version and cards are looked up in that order and the cards are
      converted before the deck is built; extra top-level keys are ignored. A name
      or version that is not a string is refused only after all of that. */
  function DeckFromJson(j: Json): (r: Result<Deck, LoadError>)
    ensures !j.JObject? ==> r == Err(NotSubscriptable)
    ensures j.JObject? && "name" !in j.fields ==> r == Err(MissingKey("name"))
    ensures j.JObject? && "name" in j.fields && "version" !in j.fields ==> r == Err(MissingKey("version"))
    ensures j.JObject? && "name" in j.fields && "version" in j.fields && "cards" !in j.fields ==>
              r == Err(MissingKey("cards"))
    ensures (j.JObject? && "name" in j.fields && "version" in j.fields && "cards" in j.fields
             && CardsOf(j.fields["cards"]).Err?) ==> r == Err(CardsOf(j.fields["cards"]).error)
    ensures r.Ok? ==> j.JObject? && "name" in j.fields && "version" in j.fields && "cards" in j.fields
    ensures r.Ok? ==> j.fields["name"] == JString(r.value.name) && j.fields["version"] == JString(r.value.version)
    ensures r.Ok? ==> CardsOf(j.fields["cards"]) == Ok(r.value.cards)
    ensures (r.Err? && r.error.DeckFieldType?) ==>
              j.JObject? && "name" in j.fields && "version" in j.fields && "cards" in j.fields
              && CardsOf(j.fields["cards"]).Ok?
  {
    if !j.JObject? then Err(NotSubscriptable)
    else if "name" !in j.fields then Err(MissingKey("name"))
    else if "version" !in j.fields then Err(MissingKey("version"))
    else if "cards" !in j.fields then Err(MissingKey("cards"))
    else
      var cards :- CardsOf(j.fields["cards"]);
      var name :- DeckString(j.fields, "name");
      var version :- DeckString(j.fields, "version");
      Ok(Deck(name, cards, version))
  }

  /** `load`: a missing file is an error; otherwise the deck its document describes. */
  function Load(fs: FileSystem, path: string): (r: Result<Deck, LoadError>)
    ensures path !in fs ==> r == Err(FileNotFound(path))
    ensures path in fs ==> r == DeckFromJson(fs[path])
  {
    if path !in fs then Err(FileNotFound(path)) else DeckFromJson(fs[path])
  }

  lemma StringsRoundTrip(xs: seq<string>)
    ensures StringsOf(Strings(xs)) == Some(xs)
  {
    var r := StringsOf(Strings(xs));
    assert r.Some?;
    assert r.value == xs;
  }

  lemma CardRoundTrip(c: SpellCard, index: nat)
    ensures CardFromJson(CardToJson(c), index) == Ok(c)
  {
    StringsRoundTrip(c.classes);
  }

  lemma {:induction false} CardsRoundTrip(cards: seq<SpellCard>, items: seq<Json>, from: nat)
    requires |items| == |cards| && from <= |items|
    requires forall i :: 0 <= i < |cards| ==> items[i] == CardToJson(cards[i])
    ensures CardsFrom(items, from) == Ok(cards[from..])
    decreases |items| - from
  {
    if from < |items| {
      CardRoundTrip(cards[from], from);
      CardsRoundTrip(cards, items, from + 1);
      DropCons(cards, from);
    }
  }

  /** Loading what was saved gives back the same deck, field for field. */
  lemma SaveLoadRoundTrip(fs: FileSystem, d: Deck, path: string)
    ensures Load(Save(fs, d, path), path) == Ok(d)
  {
    var j := ToDict(d);
    CardsRoundTrip(d.cards, j.fields["cards"].items, 0);
    assert d.cards[0..] == d.cards;
  }

  /** Saving to one path leaves what loads from every other path as it was. */
  lemma SaveLeavesOtherPaths(fs: FileSystem, d: Deck, path: string, other: string)
    requires other != path
    ensures Load(Save(fs, d, path), other) == Load(fs, other)
  {
  }

  /** A card object with every field, `art_path` included, is what its card saves to. */
  lemma CardCanonical(j: Json, index: nat)
    requires CardFromJson(j, index).Ok? && "art_path" in j.fields
    ensures CardToJson(CardFromJson(j, index).value) == j
  {
    var c := CardFromJson(j, index).value;
    var k := CardToJson(c);
    assert k.fields.Keys == j.fields.Keys;
    forall key | key in j.fields ensures k.fields[key] == j.fields[key] {
      if key == "classes" {
        var a := j.fields["classes"];
        assert Strings(c.classes).items == a.items;
      }
    }
    assert k.fields == j.fields;
  }

  /** Conversely, a document in the exact shape `save` writes (only the three keys,
      the cards as an array of objects that all carry `art_path`) is unchanged by
      loading and saving again. */
  lemma LoadSaveCanonical(j: Json)
    requires DeckFromJson(j).Ok?
    requires j.fields.Keys == {"name", "version", "cards"} && j.fields["cards"].JArray?
    requires forall i :: 0 <= i < |j.fields["cards"].items| ==>
               j.fields["cards"].items[i].JObject? && "art_path" in j.fields["cards"].items[i].fields
    ensures ToDict(DeckFromJson(j).value) == j
  {
    var d := DeckFromJson(j).value;
    var items := j.fields["cards"].items;
    var k := ToDict(d);
    forall i | 0 <= i < |items| ensures k.fields["cards"].items[i] == items[i] {
      CardCanonical(items[i], i);
    }
    assert k.fields["cards"].items == items;
    assert k.fields == j.fields;
  }
}
