/**
 * The normaliser on the species names whose display form it exists to fix
 * (index.js, lines 19-32), and one input on which applying it twice is not
 * the same as applying it once.
 *
 * Each example is proved the same way: the split-capitalise-join stage is
 * evaluated with the one- and two-part lemmas of `Names`, then exactly one
 * of the ten rules (or none) finds a match, and every other rule is shown to
 * miss, mostly because its pattern holds a character the string lacks.
 */
module NameExamples {
  import opened Text
  import opened Names

  const Flabebe: string := "Flab\U{e9}b\U{e9}"

  /**
   * The split-capitalise-join stage on a two-part name, in the form the
   * examples use: the raw name, its two parts, and the expected title.
   */
  lemma HyphenatedTitle(raw: string, a: string, b: string, title: string)
    requires raw == a + "-" + b && '-' !in a && '-' !in b
    requires title == Capitalize(a) + " " + Capitalize(b)
    ensures TitleJoin(raw) == title
  {
    TitleJoinTwoParts(a, b);
  }

  /** The split-capitalise-join stage on a name without `-`. */
  lemma WordTitle(raw: string, title: string)
    requires '-' !in raw && title == Capitalize(raw)
    ensures TitleJoin(raw) == title
  {
    TitleJoinOnePart(raw);
  }

  lemma MrMimeHit()
    ensures Rewrite(Rewrites[0], "Mr Mime") == "Mr. Mime"
  {
  }

  lemma MrMimeMissesAfter()
    ensures forall i :: 0 < i < 10 ==> Untouched(Rewrites[i], "Mr. Mime")
  {
    // w[i] is a character of rule i's pattern that the string lacks
    var w := " JROPTHNNF";
    forall i | 0 < i < 10 ensures Untouched(Rewrites[i], "Mr. Mime") {
      UntouchedByChar(Rewrites[i], "Mr. Mime", w[i]);
    }
  }

  lemma MrMime()
    ensures ProcessName("mr-mime") == "Mr. Mime"
  {
    HyphenatedTitle("mr-mime", "mr", "mime", "Mr Mime");
    MrMimeHit();
    MrMimeMissesAfter();
    RewriteAllOneHit(Rewrites, 0, "Mr Mime", "Mr. Mime");
  }

  lemma MimeJrMissesBefore()
    ensures forall i :: 0 <= i < 1 ==> Untouched(Rewrites[i], "Mime Jr")
  {
    UntouchedByMismatch(Rewrites[0], "Mime Jr", 1);
  }

  lemma MimeJrHit()
    ensures Rewrite(Rewrites[1], "Mime Jr") == "Mime Jr."
  {
  }

  lemma MimeJrMissesAfter()
    ensures forall i :: 1 < i < 10 ==> Untouched(Rewrites[i], "Mime Jr.")
  {
    // w[i] is a character of rule i's pattern that the string lacks
    var w := "  ROPTHNNF";
    forall i | 1 < i < 10 ensures Untouched(Rewrites[i], "Mime Jr.") {
      UntouchedByChar(Rewrites[i], "Mime Jr.", w[i]);
    }
  }

  lemma MimeJr()
    ensures ProcessName("mime-jr") == "Mime Jr."
  {
    HyphenatedTitle("mime-jr", "mime", "jr", "Mime Jr");
    MimeJrMissesBefore();
    MimeJrHit();
    MimeJrMissesAfter();
    RewriteAllOneHit(Rewrites, 1, "Mime Jr", "Mime Jr.");
  }

  lemma HoOhMissesBefore()
    ensures forall i :: 0 <= i < 6 ==> Untouched(Rewrites[i], "Ho Oh")
  {
    // w[i] is a character of rule i's pattern that the string lacks
    var w := "MMMmPTHNNF";
    forall i | 0 <= i < 6 ensures Untouched(Rewrites[i], "Ho Oh") {
      UntouchedByChar(Rewrites[i], "Ho Oh", w[i]);
    }
  }

  lemma HoOhHit()
    ensures Rewrite(Rewrites[6], "Ho Oh") == "Ho-Oh"
  {
    FirstOccurrenceAt("Ho Oh", "Ho Oh", 0);
  }

  lemma HoOhMissesAfter()
    ensures forall i :: 6 < i < 10 ==> Untouched(Rewrites[i], "Ho-Oh")
  {
    // w[i] is a character of rule i's pattern that the string lacks
    var w := "MMMmPTHNNF";
    forall i | 6 < i < 10 ensures Untouched(Rewrites[i], "Ho-Oh") {
      UntouchedByChar(Rewrites[i], "Ho-Oh", w[i]);
    }
  }

  lemma HoOh()
    ensures ProcessName("ho-oh") == "Ho-Oh"
  {
    HyphenatedTitle("ho-oh", "ho", "oh", "Ho Oh");
    HoOhMissesBefore();
    HoOhHit();
    HoOhMissesAfter();
    RewriteAllOneHit(Rewrites, 6, "Ho Oh", "Ho-Oh");
  }

  lemma NidoranFMissesBefore()
    ensures forall i :: 0 <= i < 7 ==> Untouched(Rewrites[i], "Nidoran F")
  {
    // w[i] is a character of rule i's pattern that the string lacks
    var w := "MMMmPTHNMF";
    forall i | 0 <= i < 7 ensures Untouched(Rewrites[i], "Nidoran F") {
      UntouchedByChar(Rewrites[i], "Nidoran F", w[i]);
    }
  }

  lemma NidoranFHit()
    ensures Rewrite(Rewrites[7], "Nidoran F") == "Nidoran\U{2640}"
  {
    FirstOccurrenceAt("Nidoran F", "Nidoran F", 0);
  }

  lemma NidoranFMissesAfter()
    ensures forall i :: 7 < i < 10 ==> Untouched(Rewrites[i], "Nidoran\U{2640}")
  {
    // w[i] is a character of rule i's pattern that the string lacks
    var w := "MMMmPTHNMF";
    forall i | 7 < i < 10 ensures Untouched(Rewrites[i], "Nidoran\U{2640}") {
      UntouchedByChar(Rewrites[i], "Nidoran\U{2640}", w[i]);
    }
  }

  lemma NidoranF()
    ensures ProcessName("nidoran-f") == "Nidoran\U{2640}"
  {
    HyphenatedTitle("nidoran-f", "nidoran", "f", "Nidoran F");
    NidoranFMissesBefore();
    NidoranFHit();
    NidoranFMissesAfter();
    RewriteAllOneHit(Rewrites, 7, "Nidoran F", "Nidoran\U{2640}");
  }

  lemma NidoranMMissesBefore()
    ensures forall i :: 0 <= i < 8 ==> Untouched(Rewrites[i], "Nidoran M")
  {
    UntouchedByMismatch(Rewrites[0], "Nidoran M", 0);
    UntouchedByMismatch(Rewrites[1], "Nidoran M", 0);
    UntouchedByMismatch(Rewrites[2], "Nidoran M", 0);
    // w[i] is a character of rule i's pattern that the string lacks
    var w := "NNNmPTHFMF";
    forall i | 3 <= i < 8 ensures Untouched(Rewrites[i], "Nidoran M") {
      UntouchedByChar(Rewrites[i], "Nidoran M", w[i]);
    }
  }

  lemma NidoranMHit()
    ensures Rewrite(Rewrites[8], "Nidoran M") == "Nidoran\U{2642}"
  {
    FirstOccurrenceAt("Nidoran M", "Nidoran M", 0);
  }

  lemma NidoranMMissesAfter()
    ensures forall i :: 8 < i < 10 ==> Untouched(Rewrites[i], "Nidoran\U{2642}")
  {
    // w[i] is a character of rule i's pattern that the string lacks
    var w := "NNNmPTHFMF";
    forall i | 8 < i < 10 ensures Untouched(Rewrites[i], "Nidoran\U{2642}") {
      UntouchedByChar(Rewrites[i], "Nidoran\U{2642}", w[i]);
    }
  }

  lemma NidoranM()
    ensures ProcessName("nidoran-m") == "Nidoran\U{2642}"
  {
    HyphenatedTitle("nidoran-m", "nidoran", "m", "Nidoran M");
    NidoranMMissesBefore();
    NidoranMHit();
    NidoranMMissesAfter();
    RewriteAllOneHit(Rewrites, 8, "Nidoran M", "Nidoran\U{2642}");
  }

  lemma TypeNullMissesBefore()
    ensures forall i :: 0 <= i < 5 ==> Untouched(Rewrites[i], "Type Null")
  {
    // w[i] is a character of rule i's pattern that the string lacks
    var w := "MMMmPTHiiF";
    forall i | 0 <= i < 5 ensures Untouched(Rewrites[i], "Type Null") {
      UntouchedByChar(Rewrites[i], "Type Null", w[i]);
    }
  }

  lemma TypeNullHit()
    ensures Rewrite(Rewrites[5], "Type Null") == "Type: Null"
  {
    FirstOccurrenceAt("Type Null", "Type Null", 0);
  }

  lemma TypeNullMissesAfter()
    ensures forall i :: 5 < i < 10 ==> Untouched(Rewrites[i], "Type: Null")
  {
    // w[i] is a character of rule i's pattern that the string lacks
    var w := "MMMmPTHiiF";
    forall i | 5 < i < 10 ensures Untouched(Rewrites[i], "Type: Null") {
      UntouchedByChar(Rewrites[i], "Type: Null", w[i]);
    }
  }

  lemma TypeNull()
    ensures ProcessName("type-null") == "Type: Null"
  {
    HyphenatedTitle("type-null", "type", "null", "Type Null");
    TypeNullMissesBefore();
    TypeNullHit();
    TypeNullMissesAfter();
    RewriteAllOneHit(Rewrites, 5, "Type Null", "Type: Null");
  }

  lemma PorygonZMissesBefore()
    ensures forall i :: 0 <= i < 4 ==> Untouched(Rewrites[i], "Porygon Z")
  {
    // w[i] is a character of rule i's pattern that the string lacks
    var w := "MMMmPTHNNF";
    forall i | 0 <= i < 4 ensures Untouched(Rewrites[i], "Porygon Z") {
      UntouchedByChar(Rewrites[i], "Porygon Z", w[i]);
    }
  }

  lemma PorygonZHit()
    ensures Rewrite(Rewrites[4], "Porygon Z") == "Porygon-Z"
  {
    FirstOccurrenceAt("Porygon Z", "Porygon Z", 0);
  }

  lemma PorygonZMissesAfter()
    ensures forall i :: 4 < i < 10 ==> Untouched(Rewrites[i], "Porygon-Z")
  {
    // w[i] is a character of rule i's pattern that the string lacks
    var w := "MMMmPTHNNF";
    forall i | 4 < i < 10 ensures Untouched(Rewrites[i], "Porygon-Z") {
      UntouchedByChar(Rewrites[i], "Porygon-Z", w[i]);
    }
  }

  lemma PorygonZ()
    ensures ProcessName("porygon-z") == "Porygon-Z"
  {
    HyphenatedTitle("porygon-z", "porygon", "z", "Porygon Z");
    PorygonZMissesBefore();
    PorygonZHit();
    PorygonZMissesAfter();
    RewriteAllOneHit(Rewrites, 4, "Porygon Z", "Porygon-Z");
  }

  lemma JangmoOMissesBefore()
    ensures forall i :: 0 <= i < 3 ==> Untouched(Rewrites[i], "Jangmo O")
  {
    // w[i] is a character of rule i's pattern that the string lacks
    var w := "MMMmPTHNNF";
    forall i | 0 <= i < 3 ensures Untouched(Rewrites[i], "Jangmo O") {
      UntouchedByChar(Rewrites[i], "Jangmo O", w[i]);
    }
  }

  lemma JangmoOHit()
    ensures Rewrite(Rewrites[3], "Jangmo O") == "Jangmo-o"
  {
    FirstOccurrenceAt("Jangmo O", "mo O", 4);
  }

  lemma JangmoOMissesAfter()
    ensures forall i :: 3 < i < 10 ==> Untouched(Rewrites[i], "Jangmo-o")
  {
    // w[i] is a character of rule i's pattern that the string lacks
    var w := "MMMmPTHNNF";
    forall i | 3 < i < 10 ensures Untouched(Rewrites[i], "Jangmo-o") {
      UntouchedByChar(Rewrites[i], "Jangmo-o", w[i]);
    }
  }

  lemma JangmoO()
    ensures ProcessName("jangmo-o") == "Jangmo-o"
  {
    HyphenatedTitle("jangmo-o", "jangmo", "o", "Jangmo O");
    JangmoOMissesBefore();
    JangmoOHit();
    JangmoOMissesAfter();
    RewriteAllOneHit(Rewrites, 3, "Jangmo O", "Jangmo-o");
  }

  lemma FlabebeNameMissesBefore()
    ensures forall i :: 0 <= i < 9 ==> Untouched(Rewrites[i], "Flabebe")
  {
    // w[i] is a character of rule i's pattern that the string lacks
    var w := "         F";
    forall i | 0 <= i < 9 ensures Untouched(Rewrites[i], "Flabebe") {
      UntouchedByChar(Rewrites[i], "Flabebe", w[i]);
    }
  }

  lemma FlabebeNameHit()
    ensures Rewrite(Rewrites[9], "Flabebe") == Flabebe
  {
    FirstOccurrenceAt("Flabebe", "Flabebe", 0);
  }

  lemma FlabebeName()
    ensures ProcessName("flabebe") == Flabebe
  {
    WordTitle("flabebe", "Flabebe");
    FlabebeNameMissesBefore();
    FlabebeNameHit();
    RewriteAllOneHit(Rewrites, 9, "Flabebe", Flabebe);
  }

  lemma BulbasaurMissesBefore()
    ensures forall i :: 0 <= i < 10 ==> Untouched(Rewrites[i], "Bulbasaur")
  {
    // w[i] is a character of rule i's pattern that the string lacks
    var w := "         F";
    forall i | 0 <= i < 10 ensures Untouched(Rewrites[i], "Bulbasaur") {
      UntouchedByChar(Rewrites[i], "Bulbasaur", w[i]);
    }
  }

  lemma Bulbasaur()
    ensures ProcessName("bulbasaur") == "Bulbasaur"
  {
    WordTitle("bulbasaur", "Bulbasaur");
    BulbasaurMissesBefore();
    RewriteAllMiss(Rewrites, "Bulbasaur");
  }

  /** The display names the capitalisation and the ten rewrite rules produce. */
  lemma KnownNames()
    ensures ProcessName("mr-mime") == "Mr. Mime"
    ensures ProcessName("mime-jr") == "Mime Jr."
    ensures ProcessName("ho-oh") == "Ho-Oh"
    ensures ProcessName("nidoran-f") == "Nidoran\U{2640}"
    ensures ProcessName("nidoran-m") == "Nidoran\U{2642}"
    ensures ProcessName("type-null") == "Type: Null"
    ensures ProcessName("porygon-z") == "Porygon-Z"
    ensures ProcessName("jangmo-o") == "Jangmo-o"
    ensures ProcessName("flabebe") == Flabebe
    ensures ProcessName("bulbasaur") == "Bulbasaur"
  {
    MrMime();
    MimeJr();
    HoOh();
    NidoranF();
    NidoranM();
    TypeNull();
    PorygonZ();
    JangmoO();
    FlabebeName();
    Bulbasaur();
  }

  lemma MimeJrAgainMissesBefore()
    ensures forall i :: 0 <= i < 1 ==> Untouched(Rewrites[i], "Mime Jr.")
  {
    UntouchedByMismatch(Rewrites[0], "Mime Jr.", 1);
  }

  lemma MimeJrAgainHit()
    ensures Rewrite(Rewrites[1], "Mime Jr.") == "Mime Jr.."
  {
  }

  lemma MimeJrAgainMissesAfter()
    ensures forall i :: 1 < i < 10 ==> Untouched(Rewrites[i], "Mime Jr..")
  {
    // w[i] is a character of rule i's pattern that the string lacks
    var w := "  ROPTHNNF";
    forall i | 1 < i < 10 ensures Untouched(Rewrites[i], "Mime Jr..") {
      UntouchedByChar(Rewrites[i], "Mime Jr..", w[i]);
    }
  }

  /**
   * The normaliser is not idempotent: the anchored `Mime Jr` rule matches its
   * own output again, so a second pass appends a second dot.
   */
  lemma NotIdempotent()
    ensures ProcessName(ProcessName("mime-jr")) == "Mime Jr.."
    ensures ProcessName(ProcessName("mime-jr")) != ProcessName("mime-jr")
  {
    MimeJr();
    WordTitle("Mime Jr.", "Mime Jr.");
    MimeJrAgainMissesBefore();
    MimeJrAgainHit();
    MimeJrAgainMissesAfter();
    RewriteAllOneHit(Rewrites, 1, "Mime Jr.", "Mime Jr..");
  }
}
