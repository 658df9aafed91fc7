/**
 * The entity record built from one `pokemon` response (index.js, lines 15-53)
 * and the enrichment of one entity with its species details (lines 62-76).
 */
module Entities {
  import opened Wrappers
  import opened Names
  import opened Species

  /** One element of the `types` list, `{ name: type.type.name }`. */
  datatype TypeTag = TypeTag(name: string)

  /**
   * The fields of a `pokemon` response that the first pass reads. URLs that
   * the API may send as `null` are optional; `baseStats` holds the
   * `base_stat` of each entry of `stats`, in order.
   */
  datatype RawPokemon = RawPokemon(
    id: int,
    speciesName: string,
    typeNames: seq<string>,
    height: int,
    weight: int,
    baseStats: seq<int>,
    frontDefault: Option<string>,
    officialArtwork: Option<string>)

  /**
   * An element of `pokeArray`. The last three fields are absent until the
   * enrichment pass stores them.
   */
  datatype Entity = Entity(
    name: string,
    number: int,
    types: seq<TypeTag>,
    height: int,
    weight: int,
    hp: int,
    attack: int,
    defense: int,
    specialAttack: int,
    specialDefense: int,
    speed: int,
    sprite: Option<string>,
    artwork: Option<string>,
    bulbUrl: string,
    flavorText: Option<string>,
    category: Option<string>,
    generation: Option<string>)

  /** A JavaScript value that `||` keeps: neither `null` nor the empty string. */
  predicate Truthy(url: Option<string>) {
    url.Some? && url.value != []
  }

  function TypeTags(names: seq<string>): (tags: seq<TypeTag>)
    ensures |tags| == |names|
    ensures forall k :: 0 <= k < |names| ==> tags[k].name == names[k]
  {
    if names == [] then [] else [TypeTag(names[0])] + TypeTags(names[1..])
  }

  /** None of the three detail fields has been stored yet. */
  predicate Bare(e: Entity) {
    e.flavorText.None? && e.category.None? && e.generation.None?
  }

  /** The detail fields are all present or all absent. */
  predicate Uniform(e: Entity) {
    e.flavorText.Some? == e.category.Some? == e.generation.Some?
  }

  /** Every field except the three detail fields is the same in both. */
  predicate SameCore(e: Entity, e': Entity) {
    e' == e.(flavorText := e'.flavorText, category := e'.category, generation := e'.generation)
  }

  /**
   * The body of the first loop's `try` block for one response. Reading
   * `stats[k].base_stat` of a list shorter than six entries throws, and the
   * entity is then not built.
   */
  function BuildEntity(raw: RawPokemon): (r: Option<Entity>)
    ensures r.Some? <==> |raw.baseStats| >= 6
    ensures r.Some? ==> Bare(r.value)
    ensures r.Some? ==> r.value.number == raw.id && r.value.types == TypeTags(raw.typeNames)
    ensures r.Some? ==> r.value.height == raw.height && r.value.weight == raw.weight
    ensures r.Some? ==>
              [r.value.hp, r.value.attack, r.value.defense,
               r.value.specialAttack, r.value.specialDefense, r.value.speed] == raw.baseStats[..6]
    ensures r.Some? ==> r.value.name == ProcessName(raw.speciesName)
    ensures r.Some? ==> r.value.bulbUrl == BulbUrl(r.value.name)
    ensures r.Some? ==> r.value.sprite == if Truthy(raw.frontDefault) then raw.frontDefault else raw.officialArtwork
    ensures r.Some? ==> r.value.artwork == raw.officialArtwork
  {
    if |raw.baseStats| < 6 then None
    else
      var name := ProcessName(raw.speciesName);
      Some(Entity(
        name := name,
        number := raw.id,
        types := TypeTags(raw.typeNames),
        height := raw.height,
        weight := raw.weight,
        hp := raw.baseStats[0],
        attack := raw.baseStats[1],
        defense := raw.baseStats[2],
        specialAttack := raw.baseStats[3],
        specialDefense := raw.baseStats[4],
        speed := raw.baseStats[5],
        sprite := if Truthy(raw.frontDefault) then raw.frontDefault else raw.officialArtwork,
        artwork := raw.officialArtwork,
        bulbUrl := BulbUrl(name),
        flavorText := None,
        category := None,
        generation := None))
  }

  /**
   * One iteration of the enrichment loop: `outcome` is the species request
   * (`None` when it fails). All three values are derived before any is
   * stored, so enrichment is all-or-nothing: a failed request or a failed
   * derivation leaves the entity exactly as it was, a successful one sets all
   * three detail fields, and no other field ever changes.
   */
  function Enriched(e: Entity, outcome: Option<SpeciesRecord>): (e': Entity)
    ensures SameCore(e, e')
    ensures outcome.None? || DeriveDetails(outcome.value).None? ==> e' == e
    ensures outcome.Some? && DeriveDetails(outcome.value).Some? ==>
              var d := DeriveDetails(outcome.value).value;
              e'.flavorText == Some(d.flavorText) && e'.category == Some(d.category) &&
              e'.generation == Some(d.generation)
    ensures Uniform(e) ==> Uniform(e')
  {
    if outcome.None? then e
    else
      match DeriveDetails(outcome.value)
      case None => e
      case Some(d) =>
        e.(flavorText := Some(d.flavorText))
         .(category := Some(d.category))
         .(generation := Some(d.generation))
  }
}
