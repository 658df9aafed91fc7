# Notion Pokédex importer — a Dafny model

The program reads the first five Pokémon from PokéAPI and makes one page per
Pokémon in a Notion database. It runs in three passes over one module-level
list, `pokeArray`:

1. **First pass** (`getPokemon`, first loop). It requests `pokemon/i` for
   `i = 1..5`. For each response it:
   - normalises the species name into a display name;
   - builds the Bulbapedia link;
   - picks the sprite, falling back to the official artwork;
   - appends an entity record.

   A request that fails, or a response it cannot read, is skipped. The loop
   goes on with the next id.
2. **Enrichment pass** (second loop). For each collected entity it requests
   `pokemon-species/<number>` and derives three values:
   - the first English flavour text, with line breaks turned into spaces;
   - the first English genus;
   - the generation label.

   It stores all three, or none when anything fails.
3. **Page pass** (`createNotionPage`). It builds one page payload per entity:
   - icon, cover and database properties;
   - four child blocks: a quote with the flavour text, an empty paragraph, a
     label paragraph, and a bookmark to the Bulbapedia link.

The model's modules follow that structure:

| module | file | what it holds |
|---|---|---|
| `Wrappers` | `wrappers.dfy` | `Option` |
| `Text` | `text.dfy` | the JavaScript string operations the program uses, on `seq<char>`: ASCII `toUpperCase`, `split` on one character, `join`, and `replace` without the `g` flag (anchored or not) |
| `Names` | `names.dfy` | the name normaliser (split, capitalise, join, then ten ordered rewrites) and the Bulbapedia link |
| `NameExamples` | `name_examples.dfy` | the normaliser evaluated on the names it exists to fix, and the input on which it is not idempotent |
| `Species` | `species.dfy` | the three derivations of the enrichment pass |
| `Entities` | `entities.dfy` | the response and entity records, building an entity, and enriching one |
| `Payload` | `payload.dfy` | the page payload and its inverse |
| `Pokedex` | `pokedex.dfy` | the `pokeArray` class with the three loops as methods, and the specification functions they are proved against |

The two HTTP endpoints are parameters of the model:
- `fetch: int -> Option<RawPokemon>` gives the outcome of `pokemon/i`;
- `species: int -> Option<SpeciesRecord>` gives the outcome of `pokemon-species/n`.

`None` stands for an exception inside the `try` block that the model does not
derive from the data, for example a network error or a missing `species`
object. Two failures are derived from the data itself:
- in the first pass, a `stats` list shorter than six entries;
- in the enrichment pass, a species record with no English flavour entry or no
  English genus (`Species.DeriveDetails` returns `None`).

**Normaliser idempotence.** Name normalisation is not idempotent. The rule `^Mime Jr → Mime Jr.` matches its own
output again, so `mime-jr` normalises to `Mime Jr.`, and normalising that once
more gives `Mime Jr..`. `NameExamples.NotIdempotent` proves this.
`Names.PlainWordIdempotent` proves where idempotence does hold: on one-word
names that no rule touches.

## Model

| member | source | states |
|---|---|---|
| Text.UpperChar | index.js:21 | `toUpperCase` on one character (ASCII): the result is never lower-case, a lower-case letter becomes its capital, and every other character is unchanged |
| Text.Upper | index.js:69 | `toUpperCase` on a string: same length, upper-cased character by character |
| Text.Capitalize | index.js:21 | `charAt(0).toUpperCase() + slice(1)`: same length, the first character upper-cased, the rest unchanged, and the empty word stays empty |
| Text.MapCapitalize | index.js:21 | the `map` step: one capitalised word per input word, in order |
| Text.Split | index.js:20 | `split(/-/)` gives at least one part, and no part contains the separator |
| Text.Join | index.js:22 | computes `join(sep)`; `Text.JoinSplit` states that it undoes `Text.Split` |
| Text.JoinSplit | index.js:20-22 | joining the parts of a split with the separator gives back the input: splitting loses nothing |
| Text.SplitNoSeparator | index.js:20 | a string without the separator splits into itself alone |
| Text.SplitFirstPart | index.js:20 | a leading part without the separator comes off the front of the split |
| Text.SplitLast | index.js:69 | the last part of a split (what `pop()` returns) is the suffix after the last separator, or the whole string |
| Text.IndexOf | index.js:23-32 | the leftmost occurrence of the pattern at or after a position, or `None` when there is none |
| Text.ReplaceFirst | index.js:26-32 | `replace` without `g` replaces the first occurrence only, and leaves the string alone when the pattern is absent |
| Text.ReplacePrefix | index.js:23-25 | a `^`-anchored `replace` rewrites only a match at position 0, and leaves any other string alone |
| Text.AnchoredAgreesAtStart | index.js:23-25 | the anchored rewrite equals the unanchored one when the first match is at 0, and is the identity otherwise |
| Text.ReplaceFirstCharAt | index.js:33-36 | replacing a one-character pattern changes exactly the first occurrence of that character and keeps the length |
| Names.TitleJoin | index.js:19-22 | computes `split(/-/)`, the capitalising `map` and `join(' ')`; its properties are stated by `Names.TitleJoinAt`, `Names.TitleJoinOnePart` and `Names.TitleJoinTwoParts` |
| Names.Rewrite | index.js:23-32 | computes one `.replace` step: `Text.ReplacePrefix` for an anchored rule, `Text.ReplaceFirst` otherwise, whose contracts state what it does |
| Names.RewriteAll | index.js:23-32 | computes the chain of rewrites, each on the previous one's output; its properties are stated by `Names.RewriteAllAppend`, `Names.RewriteAllMiss` and `Names.RewriteAllOneHit` |
| Names.ProcessName | index.js:19-32 | computes the display name: the split-capitalise-join stage, then the ten rules in source order; its properties are stated by `Names.SingleWordName`, `Names.PlainWordIdempotent`, `NameExamples.KnownNames` and `NameExamples.NotIdempotent` |
| Names.TitleJoinAt | index.js:19-22 | the split-capitalise-join stage keeps the length: each `-` becomes a space, each segment's first character is upper-cased, and every other character is unchanged |
| Names.TitleJoinOnePart | index.js:19-22 | a name without `-` is only capitalised |
| Names.TitleJoinTwoParts | index.js:19-22 | `a-b` becomes `Capitalize(a) + " " + Capitalize(b)` |
| Names.RewriteAllAppend | index.js:23-32 | running the rewrite chain in two pieces is running it whole: each rule sees the previous rule's output |
| Names.RewriteAllMiss | index.js:23-32 | when no rule matches, the chain is the identity |
| Names.RewriteAllOneHit | index.js:23-32 | when exactly one rule matches along the way, the chain's result is that one rewrite |
| Names.SingleWordName | index.js:19-32 | a one-word name is capitalised and only the `Flabebe` rule can still apply |
| Names.PlainWordIdempotent | index.js:19-32 | on a one-word name that no rule touches, the normaliser returns the capitalised word and is idempotent |
| Names.BulbUrl | index.js:33-36 | the link is the Bulbapedia prefix, the name with its first space (only that one) turned into `_`, and the `_(Pokémon)` suffix; a name without a space is copied verbatim |
| NameExamples.KnownNames | index.js:19-32 | the display names of nine names the rules exist for (`Mr. Mime`, `Mime Jr.`, `Ho-Oh`, `Nidoran♀`, `Nidoran♂`, `Type: Null`, `Porygon-Z`, `Jangmo-o`, `Flabébé`), and of `bulbasaur`, which no rule touches and which only gets capitalised (`Bulbasaur`) |
| NameExamples.NotIdempotent | index.js:24 | normalising `mime-jr` twice gives `Mime Jr..`, not `Mime Jr.` |
| Species.FindIndex | index.js:64 | `find`: the first element that satisfies the predicate, or none when no element does |
| Species.CleanFlavorText | index.js:64-67 | `/\n\|\f\|\r/g` replaced by a space: same length, every line break replaced, everything else kept, and no line break left |
| Species.CleanFlavorTextIdempotent | index.js:64-67 | cleaning twice is cleaning once |
| Species.GenerationLabel | index.js:69 | `split(/-/).pop().toUpperCase()`: the label is no longer than the name, and has no `-` and no lower-case letter; its exact value is stated by `Species.GenerationLabelOfSegment` and `Species.GenerationLabelWhole` |
| Species.GenerationLabelOfSegment | index.js:69 | the generation label is the upper-cased text after the last `-` |
| Species.GenerationLabelWhole | index.js:69 | a generation name without `-` is its own label, upper-cased |
| Species.GenerationFour | index.js:69 | `generation-iv` gives `IV` |
| Species.DeriveDetails | index.js:64-69 | derivation succeeds exactly when there is an English flavour entry and an English genus; the text is the first English entry's text, cleaned; the category is the first English genus; the generation is the label |
| Entities.TypeTags | index.js:15-18 | one `{ name }` tag per type, in order |
| Entities.BuildEntity | index.js:15-53 | an entity is built exactly when `stats` has at least six entries. Its name is the normalised species name, and its link is built from that name. Its number is the response's `id`, its types are one tag per type name in order, and its height and weight are the response's. Its six stats are `stats[0..5]` in the source's order (hp, attack, defense, special attack, special defense, speed). The sprite falls back to the artwork when `front_default` is null or empty, the artwork is the official artwork, and no detail is set yet |
| Entities.Enriched | index.js:62-76 | enrichment is all-or-nothing: a failed request or derivation leaves the entity unchanged, success sets all three details, no other field changes, and all-or-none presence of the details is preserved |
| Payload.ToPage | index.js:90-209 | a page has exactly four children in order (quote, empty paragraph, the Bulbapedia label, bookmark), its icon and `Sprite` property are the same sprite, and the entity can be read back from the page |
| Payload.PageInjective | index.js:90-209 | two different entities never give the same page |
| Payload.BarePage | index.js:117-171 | an entity that was never enriched gives a page whose quote, category and generation are absent |
| Pokedex.Primary | index.js:14-55 | the first loop's body for one id succeeds exactly when the request succeeds and its `stats` list has at least six entries, and the entity's number is the response's `id` |
| Pokedex.SuccessesAscending | index.js:12-58 | the ids the first loop keeps lie in the range and are strictly ascending |
| Pokedex.SuccessesExactly | index.js:12-58 | an id is kept exactly when it lies in the range and its attempt succeeds |
| Pokedex.GatheredMatchesSuccesses | index.js:12-58 | the `k`-th entity appended is the one built for the `k`-th id kept: nothing is dropped, duplicated or reordered |
| Pokedex.GatheredAll | index.js:12-58 | the number of entities kept is at most the size of the range, and a property every success has holds of every entity kept |
| Pokedex.AllSucceed | index.js:12-58 | when every attempt succeeds, every id of the range is kept, in order |
| Pokedex.OneFails | index.js:12-58 | a failing id is skipped and the loop continues: the ids kept are the range without that id |
| Pokedex.Collected | index.js:12-58 | computes what the first loop appends for the ids up to a bound; `Pokedex.FirstPass` states its properties and `Pokedex.PokeArray.FetchPrimary` is proved against it |
| Pokedex.SucceededIds | index.js:12-58 | computes the ids whose entity the first loop appends; its properties are stated by `Pokedex.FirstPass`, `Pokedex.ThirdFails` and `Pokedex.NoneFails` |
| Pokedex.FirstPass | index.js:12-58 | the first pass appends at most five entities, in ascending id order, one for each id whose request and record succeed, each built from its own response and awaiting enrichment |
| Pokedex.ThirdFails | index.js:12-58 | when only id 3 fails, ids 1, 2, 4 and 5 are collected |
| Pokedex.NoneFails | index.js:10-12 | when every request succeeds, ids 1 to 5 are collected in order |
| Pokedex.EnrichedAll | index.js:61-77 | the enrichment pass keeps the list's length and order, enriches each entity with its own number's species record, changes no field except the three details, and keeps all-or-none presence of the details |
| Pokedex.Run | index.js:9-79 | computes the entities after both passes of a run that starts from an empty list; `Pokedex.RunShape` states its properties |
| Pokedex.RunShape | index.js:9-80 | after both passes there is one entity per id that succeeded, at most five, each keeping every field the first pass set and holding all three details or none |
| Pokedex.PokeArray.constructor | index.js:7 | `pokeArray` starts empty |
| Pokedex.PokeArray.FetchPrimary | index.js:12-58 | the first loop appends exactly the collected entities to `pokeArray` |
| Pokedex.PokeArray.EnrichAll | index.js:61-77 | the second loop updates each entity in place to its enriched form |
| Pokedex.PokeArray.PageRequests | index.js:88-209 | one payload per entity, in list order, and each payload reads back as its entity |
| Pokedex.PokeArray.GetPokemon | index.js:9-80 | both passes and then the payloads; from an empty list, the entities are exactly what `Run` specifies |

## Left out

- The HTTP client and the Notion client are not modelled. The two PokéAPI requests are function parameters. Each `notion.pages.create` call is represented only by the payload it receives.
- `None` from `fetch` covers every exception in the first loop's `try` block except a short `stats` list. This includes network errors, and responses without `species`, `types`, `sprites` or `sprites.other['official-artwork']`. The model does not tell these causes apart.
- A response without `id`, `height` or `weight` does not throw: JavaScript stores `undefined` in the entity. The model assumes these fields are present and are integers.
- The `sleep(300)` between page creations, the async scheduling, and the fact that `getPokemon()` and `createNotionPage()` are called without `await` are not modelled. The passes are modelled as running in sequence, which is how the `await`s inside each loop order them.
- Console output is not modelled. Neither are the environment variables (`NOTION_KEY`, `NOTION_DATABASE_ID`).
- Text.UpperChar: models `toUpperCase` on ASCII only. Letters outside `a`-`z` are unchanged, whereas JavaScript upper-cases every Unicode letter (`é` becomes `É`, `ß` becomes `SS`).
- The constant fields of the payload (`object`, `type`, `parent`, the sprite file's name `Pokemon Sprite`) are not represented. Only the fields that carry entity data are.
- Payload.ToPage: JavaScript omits `undefined` fields when it serialises the payload, and Notion rejects some of them. The model keeps an absent detail as `None` and does not model Notion's response to it.
- Numbers from the API (ids, height, weight, stats) are unbounded integers. JavaScript's doubles are exact for these small values.
- Pokedex.PokeArray.EnrichAll: in the source, the loop variable aliases the object stored in `pokeArray`. The model writes the updated value back into the sequence at the same position. The result is the same, but object identity is not modelled.
- Pokedex.PokeArray.PageRequests: a failed page creation is caught and the loop continues. The model returns every payload that is sent, but not which creations succeeded.
- The program has no rate limiter and no retries, and none is modelled.
