/**
 * The driver (index.js, lines 7-80 and 89-209): the first pass fetches ids 1
 * to 5 and appends an entity to `pokeArray` for each one that succeeds, the
 * second pass enriches each collected entity in place, and the last pass
 * builds one page payload per entity.
 *
 * The HTTP requests are parameters: `fetch(i)` is the outcome of the
 * `pokemon/i` request (`None` when it fails or the response lacks a field the
 * first pass reads) and `species(n)` that of the `pokemon-species/n` request.
 */
module Pokedex {
  import opened Wrappers
  import opened Species
  import opened Entities
  import opened Payload

  const Start: int := 1
  const End: int := 5

  // ---------------------------------------------------------------------------
  // The shape of the first loop: try every id of a range, keep the successes
  // ---------------------------------------------------------------------------

  /** The ids in `lo..hi` whose attempt succeeds, in the order they are tried. */
  function Successes<T>(attempt: int -> Option<T>, lo: int, hi: int): seq<int>
    decreases hi - lo
  {
    if hi < lo then []
    else Successes(attempt, lo, hi - 1) + (if attempt(hi).Some? then [hi] else [])
  }

  /** What the loop appends for the ids `lo..hi`: each success's value, in id order. */
  function Gathered<T>(attempt: int -> Option<T>, lo: int, hi: int): seq<T>
    decreases hi - lo
  {
    if hi < lo then []
    else Gathered(attempt, lo, hi - 1) + (if attempt(hi).Some? then [attempt(hi).value] else [])
  }

  /** Every id listed is within `lo..hi`, and the list is strictly ascending. */
  lemma {:induction false} SuccessesAscending<T>(attempt: int -> Option<T>, lo: int, hi: int)
    ensures forall k :: 0 <= k < |Successes(attempt, lo, hi)| ==>
              lo <= Successes(attempt, lo, hi)[k] <= hi
    ensures forall k, l :: 0 <= k < l < |Successes(attempt, lo, hi)| ==>
              Successes(attempt, lo, hi)[k] < Successes(attempt, lo, hi)[l]
    decreases hi - lo
  {
    if lo <= hi {
      SuccessesAscending(attempt, lo, hi - 1);
      var prev := Successes(attempt, lo, hi - 1);
      var ids := Successes(attempt, lo, hi);
      assert ids == prev + [hi] || ids == prev;
    }
  }

  /** An id is listed exactly when it is within `lo..hi` and its attempt succeeds. */
  lemma {:induction false} SuccessesExactly<T>(attempt: int -> Option<T>, lo: int, hi: int)
    ensures forall i :: i in Successes(attempt, lo, hi) <==> lo <= i <= hi && attempt(i).Some?
    decreases hi - lo
  {
    if lo <= hi {
      SuccessesExactly(attempt, lo, hi - 1);
      var prev := Successes(attempt, lo, hi - 1);
      var ids := Successes(attempt, lo, hi);
      if attempt(hi).Some? {
        assert ids == prev + [hi];
      } else {
        assert ids == prev;
      }
    }
  }

  /**
   * The `k`-th value kept is the one the `k`-th successful id produced:
   * nothing is dropped, duplicated or reordered.
   */
  lemma {:induction false} GatheredMatchesSuccesses<T>(attempt: int -> Option<T>, lo: int, hi: int)
    ensures |Gathered(attempt, lo, hi)| == |Successes(attempt, lo, hi)|
    ensures forall k :: 0 <= k < |Gathered(attempt, lo, hi)| ==>
              attempt(Successes(attempt, lo, hi)[k]) == Some(Gathered(attempt, lo, hi)[k])
    decreases hi - lo
  {
    if lo <= hi {
      GatheredMatchesSuccesses(attempt, lo, hi - 1);
    }
  }

  /**
   * At most one value per id, and a property every success has holds of
   * every value kept.
   */
  lemma {:induction false} GatheredAll<T>(attempt: int -> Option<T>, lo: int, hi: int, p: T -> bool)
    requires forall i :: attempt(i).Some? ==> p(attempt(i).value)
    ensures |Gathered(attempt, lo, hi)| <= if hi < lo then 0 else hi - lo + 1
    ensures forall k :: 0 <= k < |Gathered(attempt, lo, hi)| ==> p(Gathered(attempt, lo, hi)[k])
    decreases hi - lo
  {
    if lo <= hi {
      GatheredAll(attempt, lo, hi - 1, p);
    }
  }

  /** When every attempt succeeds, every id is listed, in order. */
  lemma {:induction false} AllSucceed<T>(attempt: int -> Option<T>, lo: int, hi: int)
    requires lo <= hi + 1
    requires forall i :: lo <= i <= hi ==> attempt(i).Some?
    ensures Successes(attempt, lo, hi) == seq(hi - lo + 1, k => lo + k)
    decreases hi - lo
  {
    if lo <= hi {
      AllSucceed(attempt, lo, hi - 1);
    }
  }

  /**
   * When the attempt for `f` alone fails, the list is the range with `f`
   * left out: the failure is skipped and the loop goes on.
   */
  lemma {:induction false} OneFails<T>(attempt: int -> Option<T>, lo: int, f: int, hi: int)
    requires lo <= f <= hi
    requires forall i :: lo <= i <= hi && i != f ==> attempt(i).Some?
    requires attempt(f).None?
    ensures Successes(attempt, lo, hi) == seq(f - lo, k => lo + k) + seq(hi - f, k => f + 1 + k)
    decreases hi - lo
  {
    if f < hi {
      OneFails(attempt, lo, f, hi - 1);
    } else {
      AllSucceed(attempt, lo, hi - 1);
    }
  }

  // ---------------------------------------------------------------------------
  // The first pass of the pipeline
  // ---------------------------------------------------------------------------

  /** The first pass for one id: the request, then the record built from it. */
  function Primary(fetch: int -> Option<RawPokemon>, i: int): (r: Option<Entity>)
    ensures r.Some? <==> fetch(i).Some? && |fetch(i).value.baseStats| >= 6
    ensures r.Some? ==> r.value.number == fetch(i).value.id
  {
    match fetch(i)
    case None => None
    case Some(raw) => BuildEntity(raw)
  }

  function Attempt(fetch: int -> Option<RawPokemon>): int -> Option<Entity> {
    i => Primary(fetch, i)
  }

  /** What the first loop appends, for the ids `Start..hi`. */
  function Collected(fetch: int -> Option<RawPokemon>, hi: int): seq<Entity> {
    Gathered(Attempt(fetch), Start, hi)
  }

  /** The ids whose entity the first loop appends. */
  function SucceededIds(fetch: int -> Option<RawPokemon>): seq<int> {
    Successes(Attempt(fetch), Start, End)
  }

  /**
   * The first pass appends at most five entities, in ascending id order, one
   * for each id whose request and record both succeed, each built from its
   * own response and awaiting enrichment.
   */
  lemma FirstPass(fetch: int -> Option<RawPokemon>)
    ensures |Collected(fetch, End)| == |SucceededIds(fetch)| <= End - Start + 1
    ensures forall k, l :: 0 <= k < l < |SucceededIds(fetch)| ==>
              SucceededIds(fetch)[k] < SucceededIds(fetch)[l]
    ensures forall i :: i in SucceededIds(fetch) <==> Start <= i <= End && Primary(fetch, i).Some?
    ensures forall k :: 0 <= k < |Collected(fetch, End)| ==>
              Primary(fetch, SucceededIds(fetch)[k]) == Some(Collected(fetch, End)[k])
    ensures forall k :: 0 <= k < |Collected(fetch, End)| ==> Bare(Collected(fetch, End)[k])
  {
    var attempt := Attempt(fetch);
    SuccessesAscending(attempt, Start, End);
    SuccessesExactly(attempt, Start, End);
    GatheredMatchesSuccesses(attempt, Start, End);
    AttemptsBare(fetch);
    GatheredAll(attempt, Start, End, Bare);
  }

  /** Every entity the first pass builds awaits enrichment. */
  lemma AttemptsBare(fetch: int -> Option<RawPokemon>)
    ensures forall i :: Attempt(fetch)(i).Some? ==> Bare(Attempt(fetch)(i).value)
  {
    forall i | Attempt(fetch)(i).Some? ensures Bare(Attempt(fetch)(i).value) {
      assert fetch(i).Some?;
    }
  }

  /** A failed id is skipped and the loop goes on with the next one. */
  lemma ThirdFails(fetch: int -> Option<RawPokemon>)
    requires forall i :: Start <= i <= End && i != 3 ==> Primary(fetch, i).Some?
    requires Primary(fetch, 3).None?
    ensures SucceededIds(fetch) == [1, 2, 4, 5]
  {
    ThirdOfFive(Attempt(fetch));
  }

  lemma ThirdOfFive<T>(attempt: int -> Option<T>)
    requires forall i :: Start <= i <= End && i != 3 ==> attempt(i).Some?
    requires attempt(3).None?
    ensures Successes(attempt, Start, End) == [1, 2, 4, 5]
  {
    OneFails(attempt, Start, 3, End);
  }

  /** When every request succeeds, ids 1 to 5 are all collected, in order. */
  lemma NoneFails(fetch: int -> Option<RawPokemon>)
    requires forall i :: Start <= i <= End ==> Primary(fetch, i).Some?
    ensures SucceededIds(fetch) == [1, 2, 3, 4, 5]
  {
    NoneOfFive(Attempt(fetch));
  }

  lemma NoneOfFive<T>(attempt: int -> Option<T>)
    requires forall i :: Start <= i <= End ==> attempt(i).Some?
    ensures Successes(attempt, Start, End) == [1, 2, 3, 4, 5]
  {
    AllSucceed(attempt, Start, End);
  }

  // ---------------------------------------------------------------------------
  // Specification of the second pass
  // ---------------------------------------------------------------------------

  /**
   * Every entity after the second pass: each is enriched with the outcome of
   * the species request for its own number. The list keeps its length and
   * order, no field but the three details changes, and an entity whose
   * details were all present or all absent still has them so.
   */
  function EnrichedAll(es: seq<Entity>, species: int -> Option<SpeciesRecord>): (r: seq<Entity>)
    ensures |r| == |es|
    ensures forall k :: 0 <= k < |es| ==> r[k] == Enriched(es[k], species(es[k].number))
    ensures forall k :: 0 <= k < |es| ==> SameCore(es[k], r[k])
    ensures forall k :: 0 <= k < |es| ==> Uniform(es[k]) ==> Uniform(r[k])
  {
    if es == [] then []
    else [Enriched(es[0], species(es[0].number))] + EnrichedAll(es[1..], species)
  }

  /** The entities left after the first two passes of a run that starts from an empty list. */
  function Run(fetch: int -> Option<RawPokemon>, species: int -> Option<SpeciesRecord>): seq<Entity> {
    EnrichedAll(Collected(fetch, End), species)
  }

  /**
   * After both passes there is one entity per id that succeeded, at most five,
   * in id order; each keeps every field the first pass set (see `FirstPass`
   * for what that is), and has all three details or none of them.
   */
  lemma RunShape(fetch: int -> Option<RawPokemon>, species: int -> Option<SpeciesRecord>)
    ensures |Run(fetch, species)| == |SucceededIds(fetch)| <= End - Start + 1
    ensures forall k :: 0 <= k < |Run(fetch, species)| ==>
              SameCore(Collected(fetch, End)[k], Run(fetch, species)[k])
    ensures forall k :: 0 <= k < |Run(fetch, species)| ==> Uniform(Run(fetch, species)[k])
  {
    FirstPass(fetch);
  }

  // ---------------------------------------------------------------------------
  // The module-level `pokeArray` and the passes over it
  // ---------------------------------------------------------------------------

  class PokeArray {
    var entities: seq<Entity>

    constructor()
      ensures entities == []
    {
      entities := [];
    }

    /** The first loop (index.js, lines 12-58). */
    method FetchPrimary(fetch: int -> Option<RawPokemon>)
      modifies this
      ensures entities == old(entities) + Collected(fetch, End)
    {
      var i := Start;
      while i <= End
        invariant Start <= i <= End + 1
        invariant entities == old(entities) + Collected(fetch, i - 1)
        decreases End - i
      {
        ghost var before := entities;
        var response := fetch(i);
        var built := None;
        if response.Some? {
          built := BuildEntity(response.value);
          if built.Some? {
            entities := entities + [built.value];
          }
        }
        assert built == Attempt(fetch)(i);
        assert entities == before + if built.Some? then [built.value] else [];
        i := i + 1;
      }
    }

    /**
     * The second loop (index.js, lines 61-77): the three values are derived
     * first and only then stored, one field after another, into the entity.
     */
    method EnrichAll(species: int -> Option<SpeciesRecord>)
      modifies this
      ensures entities == EnrichedAll(old(entities), species)
    {
      var k := 0;
      while k < |entities|
        invariant 0 <= k <= |entities| == |old(entities)|
        invariant forall j :: 0 <= j < k ==>
                    entities[j] == Enriched(old(entities)[j], species(old(entities)[j].number))
        invariant forall j :: k <= j < |entities| ==> entities[j] == old(entities)[j]
      {
        var pokemon := entities[k];
        var outcome := species(pokemon.number);
        if outcome.Some? {
          var details := DeriveDetails(outcome.value);
          if details.Some? {
            var d := details.value;
            pokemon := pokemon.(flavorText := Some(d.flavorText));
            pokemon := pokemon.(category := Some(d.category));
            pokemon := pokemon.(generation := Some(d.generation));
            entities := entities[k := pokemon];
          }
        }
        k := k + 1;
      }
    }

    /**
     * The payloads `createNotionPage` sends (index.js, lines 89-209): one per
     * entity, in list order; a page whose creation fails does not stop the
     * loop. Each payload reads back as its entity.
     */
    method PageRequests() returns (pages: seq<Page>)
      ensures |pages| == |entities|
      ensures forall k :: 0 <= k < |pages| ==> pages[k] == ToPage(entities[k])
      ensures forall k :: 0 <= k < |pages| ==> EntityOf(pages[k]) == Some(entities[k])
    {
      pages := [];
      for k := 0 to |entities|
        invariant |pages| == k
        invariant forall j :: 0 <= j < k ==> pages[j] == ToPage(entities[j])
      {
        pages := pages + [ToPage(entities[k])];
      }
    }

    /** `getPokemon`: both passes, then the page payloads (index.js, lines 9-80). */
    method GetPokemon(fetch: int -> Option<RawPokemon>, species: int -> Option<SpeciesRecord>)
        returns (pages: seq<Page>)
      modifies this
      ensures entities == EnrichedAll(old(entities) + Collected(fetch, End), species)
      ensures old(entities) == [] ==> entities == Run(fetch, species)
      ensures |pages| == |entities|
      ensures forall k :: 0 <= k < |pages| ==> pages[k] == ToPage(entities[k])
    {
      FetchPrimary(fetch);
      EnrichAll(species);
      pages := PageRequests();
    }
  }
}
