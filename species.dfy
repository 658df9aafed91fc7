/**
 * The three detail fields derived from a species record (index.js, lines
 * 64-69): the first English flavour text with its line breaks turned into
 * spaces, the genus of the first English genera entry, and the generation
 * label, the upper-cased last `-` segment of the generation's name.
 *
 * `Array.prototype.find` returns `undefined` when no entry is English, and
 * reading `.flavor_text` or `.genus` of it throws; that throw is modelled as
 * `DeriveDetails` returning `None`.
 */
module Species {
  import opened Wrappers
  import opened Text

  datatype FlavorTextEntry = FlavorTextEntry(language: string, flavorText: string)

  datatype GenusEntry = GenusEntry(language: string, genus: string)

  /** The fields of a `pokemon-species` response that the enrichment reads. */
  datatype SpeciesRecord = SpeciesRecord(
    flavorTextEntries: seq<FlavorTextEntry>,
    genera: seq<GenusEntry>,
    generationName: string)

  /** The three values assigned together to an entity. */
  datatype Details = Details(flavorText: string, category: string, generation: string)

  const English: string := "en"

  // ---------------------------------------------------------------------------
  // find
  // ---------------------------------------------------------------------------

  /** Index of the element `Array.prototype.find` returns, if any. */
  function FindIndex<T>(s: seq<T>, p: T -> bool): (r: Option<nat>)
    ensures r.Some? ==> r.value < |s| && p(s[r.value])
    ensures r.Some? ==> forall j :: 0 <= j < r.value ==> !p(s[j])
    ensures r.None? ==> forall j :: 0 <= j < |s| ==> !p(s[j])
  {
    if s == [] then None
    else if p(s[0]) then Some(0)
    else match FindIndex(s[1..], p)
      case None => None
      case Some(k) => Some(k + 1)
  }

  predicate IsEnglishFlavor(e: FlavorTextEntry) {
    e.language == English
  }

  predicate IsEnglishGenus(g: GenusEntry) {
    g.language == English
  }

  /** `i` is the first English entry of `es`. */
  predicate FirstEnglishFlavor(es: seq<FlavorTextEntry>, i: int) {
    0 <= i < |es| && IsEnglishFlavor(es[i]) && forall j :: 0 <= j < i ==> !IsEnglishFlavor(es[j])
  }

  predicate FirstEnglishGenus(gs: seq<GenusEntry>, i: int) {
    0 <= i < |gs| && IsEnglishGenus(gs[i]) && forall j :: 0 <= j < i ==> !IsEnglishGenus(gs[j])
  }

  // ---------------------------------------------------------------------------
  // flavour text clean-up: .replace(/\n|\f|\r/g, ' ')
  // ---------------------------------------------------------------------------

  predicate IsLineBreak(c: char) {
    c == '\n' || c == '\U{0C}' || c == '\r'
  }

  /**
   * Every newline, form feed and carriage return becomes a space (the regex
   * has the `g` flag); every other character is kept, so the length is too.
   */
  function CleanFlavorText(s: string): (r: string)
    ensures |r| == |s|
    ensures forall i :: 0 <= i < |s| ==> r[i] == if IsLineBreak(s[i]) then ' ' else s[i]
    ensures forall i :: 0 <= i < |r| ==> !IsLineBreak(r[i])
  {
    if s == [] then []
    else [if IsLineBreak(s[0]) then ' ' else s[0]] + CleanFlavorText(s[1..])
  }

  /** Cleaning twice is cleaning once. */
  lemma {:induction false} CleanFlavorTextIdempotent(s: string)
    ensures CleanFlavorText(CleanFlavorText(s)) == CleanFlavorText(s)
  {
    if s != [] {
      CleanFlavorTextIdempotent(s[1..]);
      assert CleanFlavorText(s)[1..] == CleanFlavorText(s[1..]);
    }
  }

  // ---------------------------------------------------------------------------
  // generation label: name.split(/-/).pop().toUpperCase()
  // ---------------------------------------------------------------------------

  /** The label has no `-` and no lower-case letter. */
  function GenerationLabel(name: string): (g: string)
    ensures |g| <= |name|
    ensures forall i :: 0 <= i < |g| ==> g[i] != '-' && !IsLower(g[i])
  {
    SplitLast(name, '-');
    Upper(Last(Split(name, '-')))
  }

  /**
   * The label is the upper-cased text after the last `-`: for any name of the
   * form `prefix-segment` whose segment has no `-`.
   */
  lemma GenerationLabelOfSegment(prefix: string, segment: string)
    requires '-' !in segment
    ensures GenerationLabel(prefix + "-" + segment) == Upper(segment)
  {
    var s := prefix + "-" + segment;
    SplitLast(s, '-');
    var p := Last(Split(s, '-'));
    assert '-' !in p;
    assert s[|s| - |segment| - 1] == '-';
    assert p == s[|s| - |segment|..] == segment;
  }

  /** A name without `-` is its own label, upper-cased. */
  lemma GenerationLabelWhole(name: string)
    requires '-' !in name
    ensures GenerationLabel(name) == Upper(name)
  {
    SplitNoSeparator(name, '-');
  }

  lemma GenerationFour()
    ensures GenerationLabel("generation-iv") == "IV"
  {
    assert "generation-iv" == "generation" + "-" + "iv";
    GenerationLabelOfSegment("generation", "iv");
  }

  // ---------------------------------------------------------------------------
  // the three derivations together (index.js, lines 64-69)
  // ---------------------------------------------------------------------------

  /**
   * The three detail values, computed before any of them is stored. `None` is
   * the throw when either list has no English entry.
   */
  function DeriveDetails(sp: SpeciesRecord): (r: Option<Details>)
    ensures r.Some? <==>
      (exists i :: 0 <= i < |sp.flavorTextEntries| && IsEnglishFlavor(sp.flavorTextEntries[i])) &&
      (exists j :: 0 <= j < |sp.genera| && IsEnglishGenus(sp.genera[j]))
    ensures r.Some? ==> forall i :: FirstEnglishFlavor(sp.flavorTextEntries, i) ==>
              r.value.flavorText == CleanFlavorText(sp.flavorTextEntries[i].flavorText)
    ensures r.Some? ==> forall j :: FirstEnglishGenus(sp.genera, j) ==>
              r.value.category == sp.genera[j].genus
    ensures r.Some? ==> r.value.generation == GenerationLabel(sp.generationName)
  {
    var es, gs := sp.flavorTextEntries, sp.genera;
    match FindIndex(es, IsEnglishFlavor)
    case None =>
      assert forall i :: 0 <= i < |es| ==> !IsEnglishFlavor(es[i]);
      None
    case Some(i) =>
      assert FirstEnglishFlavor(es, i);
      match FindIndex(gs, IsEnglishGenus)
      case None =>
        assert forall j :: 0 <= j < |gs| ==> !IsEnglishGenus(gs[j]);
        None
      case Some(j) =>
        assert FirstEnglishGenus(gs, j);
        Some(Details(
          CleanFlavorText(sp.flavorTextEntries[i].flavorText),
          sp.genera[j].genus,
          GenerationLabel(sp.generationName)))
  }
}
