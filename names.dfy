/**
 * The species-name normaliser and the Bulbapedia link built from its output
 * (index.js, lines 19-36).
 *
 * The raw species name is split on `-`, each part gets its first character
 * upper-cased, the parts are joined with single spaces, and then ten fixed
 * rewrites run in order, each on the previous output. None of the ten regexes
 * has the `g` flag, so each rewrites its first match only; the first three are
 * anchored with `^` and so only ever rewrite at the start of the name.
 */
module Names {
  import opened Wrappers
  import opened Text

  /** One `.replace(/pattern/, replacement)` step; `anchored` is a leading `^`. */
  datatype Rule = Rule(anchored: bool, pattern: string, replacement: string)

  /** The ten rewrites, in the order the source chains them. */
  const Rewrites: seq<Rule> := [
    Rule(true, "Mr M", "Mr. M"),
    Rule(true, "Mime Jr", "Mime Jr."),
    Rule(true, "Mr R", "Mr. R"),
    Rule(false, "mo O", "mo-o"),
    Rule(false, "Porygon Z", "Porygon-Z"),
    Rule(false, "Type Null", "Type: Null"),
    Rule(false, "Ho Oh", "Ho-Oh"),
    Rule(false, "Nidoran F", "Nidoran\U{2640}"),
    Rule(false, "Nidoran M", "Nidoran\U{2642}"),
    Rule(false, "Flabebe", "Flab\U{e9}b\U{e9}")
  ]

  function Rewrite(rule: Rule, s: string): string {
    if rule.anchored then ReplacePrefix(s, rule.pattern, rule.replacement)
    else ReplaceFirst(s, rule.pattern, rule.replacement)
  }

  /** The chained `.replace` calls: each rule runs on the previous one's output. */
  function RewriteAll(rules: seq<Rule>, s: string): string {
    if rules == [] then s else RewriteAll(rules[1..], Rewrite(rules[0], s))
  }

  /** `raw.split(/-/).map(capitalize).join(' ')`, before any rewrite. */
  function TitleJoin(raw: string): string {
    Join(MapCapitalize(Split(raw, '-')), " ")
  }

  /** The display name stored in the entity's `name` field. */
  function ProcessName(raw: string): string {
    RewriteAll(Rewrites, TitleJoin(raw))
  }

  // ---------------------------------------------------------------------------
  // The split-capitalise-join stage, character by character
  // ---------------------------------------------------------------------------

  /**
   * What the split-capitalise-join stage puts at position `i` of a raw name:
   * every `-` becomes a space, the first character of every segment (the one
   * at the start or right after a `-`) is upper-cased, everything else stays.
   */
  function TitleChar(raw: string, i: nat): char
    requires i < |raw|
  {
    if raw[i] == '-' then ' '
    else if i == 0 || raw[i - 1] == '-' then UpperChar(raw[i])
    else raw[i]
  }

  lemma TitleJoinAt(raw: string)
    ensures |TitleJoin(raw)| == |raw|
    ensures forall i :: 0 <= i < |raw| ==> TitleJoin(raw)[i] == TitleChar(raw, i)
  {
    JoinSplit(raw, '-');
    CapitalizedJoinAt(Split(raw, '-'));
  }

  /** A name without `-` is one part, only capitalised. */
  lemma TitleJoinOnePart(raw: string)
    requires '-' !in raw
    ensures TitleJoin(raw) == Capitalize(raw)
  {
    SplitNoSeparator(raw, '-');
  }

  /** A two-part hyphenated name becomes its two capitalised parts and a space. */
  lemma TitleJoinTwoParts(a: string, b: string)
    requires '-' !in a && '-' !in b
    ensures TitleJoin(a + "-" + b) == Capitalize(a) + " " + Capitalize(b)
  {
    SplitFirstPart(a, '-', b);
    SplitNoSeparator(b, '-');
    assert Split(a + "-" + b, '-') == [a, b];
    var caps := MapCapitalize([a, b]);
    assert caps == [Capitalize(a), Capitalize(b)];
    assert Join(caps, " ") == caps[0] + " " + Join(caps[1..], " ");
    assert caps[1..] == [Capitalize(b)];
  }

  lemma {:induction false} CapitalizedJoinAt(parts: seq<string>)
    requires |parts| >= 1
    requires forall k :: 0 <= k < |parts| ==> '-' !in parts[k]
    ensures |Join(MapCapitalize(parts), " ")| == |Join(parts, "-")|
    ensures forall i :: 0 <= i < |Join(parts, "-")| ==>
              Join(MapCapitalize(parts), " ")[i] == TitleChar(Join(parts, "-"), i)
  {
    var a := parts[0];
    var t := Join(MapCapitalize(parts), " ");
    var j := Join(parts, "-");
    if |parts| == 1 {
      assert t == Capitalize(a) && j == a;
      forall i | 0 <= i < |j| ensures t[i] == TitleChar(j, i) {
        assert a[i] != '-';
        if i > 0 {
          assert a[i - 1] != '-';
          assert t[i] == Capitalize(a)[1..][i - 1];
        }
      }
    } else {
      CapitalizedJoinAt(parts[1..]);
      var t' := Join(MapCapitalize(parts[1..]), " ");
      var j' := Join(parts[1..], "-");
      assert MapCapitalize(parts)[1..] == MapCapitalize(parts[1..]);
      assert t == Capitalize(a) + " " + t';
      assert j == a + "-" + j';
      forall i | 0 <= i < |j| ensures t[i] == TitleChar(j, i) {
        if i < |a| {
          assert a[i] != '-';
          assert j[i] == a[i] && t[i] == Capitalize(a)[i];
          if i > 0 {
            assert a[i - 1] != '-' && j[i - 1] == a[i - 1];
            assert Capitalize(a)[i] == Capitalize(a)[1..][i - 1];
          }
        } else if i > |a| {
          var m := i - |a| - 1;
          assert t[i] == t'[m] && j[i] == j'[m];
          if m > 0 {
            assert j[i - 1] == j'[m - 1];
          }
        }
      }
    }
  }

  // ---------------------------------------------------------------------------
  // The rewrite chain
  // ---------------------------------------------------------------------------

  /** Running two rule lists back to back is running their concatenation. */
  lemma {:induction false} RewriteAllAppend(first: seq<Rule>, second: seq<Rule>, s: string)
    ensures RewriteAll(first + second, s) == RewriteAll(second, RewriteAll(first, s))
  {
    if first != [] {
      assert (first + second)[1..] == first[1..] + second;
      RewriteAllAppend(first[1..], second, Rewrite(first[0], s));
    } else {
      assert first + second == second;
    }
  }

  /**
   * `rule` finds nothing to rewrite in `s`: an anchored rule has no match at
   * the start, an unanchored one no match anywhere.
   */
  predicate Untouched(rule: Rule, s: string) {
    if rule.anchored then !OccursAt(s, rule.pattern, 0) else Absent(s, rule.pattern)
  }

  lemma UntouchedByChar(rule: Rule, s: string, c: char)
    requires c in rule.pattern && c !in s
    ensures Untouched(rule, s)
  {
    AbsentByChar(s, rule.pattern, c);
  }

  /** An anchored rule misses a string that differs from its pattern at some position. */
  lemma UntouchedByMismatch(rule: Rule, s: string, i: nat)
    requires rule.anchored && i < |rule.pattern| && i < |s| && s[i] != rule.pattern[i]
    ensures Untouched(rule, s)
  {
  }

  /** When no rule of the list finds a match, the whole chain is the identity. */
  lemma {:induction false} RewriteAllMiss(rules: seq<Rule>, s: string)
    requires forall k :: 0 <= k < |rules| ==> Untouched(rules[k], s)
    ensures RewriteAll(rules, s) == s
  {
    if rules != [] {
      RewriteAllMiss(rules[1..], s);
    }
  }

  /**
   * When only the rule at position `k` finds a match, the chain's result is
   * that one rewrite: rules before `k` see the input unchanged and rules after
   * `k` see the rewritten string.
   */
  lemma RewriteAllOneHit(rules: seq<Rule>, k: nat, s: string, t: string)
    requires k < |rules|
    requires forall i :: 0 <= i < k ==> Untouched(rules[i], s)
    requires Rewrite(rules[k], s) == t
    requires forall i :: k < i < |rules| ==> Untouched(rules[i], t)
    ensures RewriteAll(rules, s) == t
  {
    RewriteAllMiss(rules[..k], s);
    RewriteAllMiss(rules[k + 1..], t);
    assert rules == rules[..k] + ([rules[k]] + rules[k + 1..]);
    RewriteAllAppend(rules[..k], [rules[k]] + rules[k + 1..], s);
    assert ([rules[k]] + rules[k + 1..])[1..] == rules[k + 1..];
  }

  /**
   * A one-word name (no `-`, no space) is only capitalised: nine of the ten
   * patterns contain a space and cannot match, so the only rewrite that can
   * still apply is the last one, `Flabebe`.
   */
  lemma SingleWordName(raw: string)
    requires '-' !in raw && ' ' !in raw
    ensures ProcessName(raw) == ReplaceFirst(Capitalize(raw), "Flabebe", "Flab\U{e9}b\U{e9}")
  {
    var c := Capitalize(raw);
    assert Split(raw, '-') == [raw] by {
      JoinSplit(raw, '-');
    }
    assert TitleJoin(raw) == c;
    assert ' ' !in c by {
      if raw != [] {
        assert c == [UpperChar(raw[0])] + raw[1..];
      }
    }
    var firstNine := Rewrites[..9];
    forall k | 0 <= k < 9 ensures Untouched(firstNine[k], c) {
      UntouchedByChar(firstNine[k], c, ' ');
    }
    RewriteAllMiss(firstNine, c);
    assert Rewrites == firstNine + [Rewrites[9]];
    RewriteAllAppend(firstNine, [Rewrites[9]], c);
  }

  /**
   * On a one-word name whose capitalised form has no `Flabebe`, the
   * normaliser is idempotent: its output is the capitalised word, which
   * nothing changes a second time. (It is not idempotent in general; see
   * `NameExamples.NotIdempotent`.)
   */
  lemma PlainWordIdempotent(raw: string)
    requires '-' !in raw && ' ' !in raw
    requires Absent(Capitalize(raw), "Flabebe")
    ensures ProcessName(raw) == Capitalize(raw)
    ensures ProcessName(ProcessName(raw)) == ProcessName(raw)
  {
    var c := Capitalize(raw);
    SingleWordName(raw);
    assert '-' !in c && ' ' !in c by {
      if raw != [] {
        assert c == [UpperChar(raw[0])] + raw[1..];
      }
    }
    assert Capitalize(c) == c by {
      if raw != [] {
        assert c == [UpperChar(raw[0])] + raw[1..];
      }
    }
    SingleWordName(c);
  }

  // ---------------------------------------------------------------------------
  // Bulbapedia link (index.js, lines 33-36)
  // ---------------------------------------------------------------------------

  const BulbapediaPrefix: string := "https://bulbapedia.bulbagarden.net/wiki/"
  const BulbapediaSuffix: string := "_(Pok\U{e9}mon)"

  /**
   * The prefix, the name with its first space (and only that one) turned into
   * `_`, and the suffix: `String.replace` with a string pattern replaces once.
   */
  function BulbUrl(name: string): (url: string)
    ensures |url| == |BulbapediaPrefix| + |name| + |BulbapediaSuffix|
    ensures url[..|BulbapediaPrefix|] == BulbapediaPrefix
    ensures url[|BulbapediaPrefix| + |name|..] == BulbapediaSuffix
    ensures forall i :: 0 <= i < |name| ==>
              url[|BulbapediaPrefix| + i] == if name[i] == ' ' && ' ' !in name[..i] then '_' else name[i]
    ensures ' ' !in name ==> url == BulbapediaPrefix + name + BulbapediaSuffix
  {
    ReplaceFirstCharAt(name, ' ', '_');
    var middle := ReplaceFirst(name, " ", "_");
    assert ' ' !in name ==> middle == name by {
      if ' ' !in name {
        AbsentByChar(name, " ", ' ');
      }
    }
    BulbapediaPrefix + middle + BulbapediaSuffix
  }
}
