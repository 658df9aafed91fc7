/**
 * The JavaScript string operations the pipeline is built from, on `seq<char>`:
 * ASCII upper-casing, `split` on a one-character separator, `join`, and
 * `replace` with a literal pattern and no `g` flag (first match only),
 * with or without a leading `^` anchor.
 */
module Text {
  import opened Wrappers

  // ---------------------------------------------------------------------------
  // Upper-casing (ASCII model of String.prototype.toUpperCase)
  // ---------------------------------------------------------------------------

  predicate IsLower(c: char) {
    'a' <= c <= 'z'
  }

  function UpperChar(c: char): (u: char)
    ensures !IsLower(u)
    ensures !IsLower(c) ==> u == c
    ensures IsLower(c) ==> 'A' <= u <= 'Z' && u as int + 32 == c as int
  {
    if IsLower(c) then (c as int - 32) as char else c
  }

  function Upper(s: string): (u: string)
    ensures |u| == |s|
    ensures forall i :: 0 <= i < |s| ==> u[i] == UpperChar(s[i])
  {
    if s == [] then [] else [UpperChar(s[0])] + Upper(s[1..])
  }

  /** `w.charAt(0).toUpperCase() + w.slice(1)`; the empty word stays empty. */
  function Capitalize(w: string): (r: string)
    ensures |r| == |w|
    ensures w != [] ==> r[0] == UpperChar(w[0]) && r[1..] == w[1..]
  {
    if w == [] then [] else [UpperChar(w[0])] + w[1..]
  }

  function MapCapitalize(words: seq<string>): (r: seq<string>)
    ensures |r| == |words|
    ensures forall k :: 0 <= k < |words| ==> r[k] == Capitalize(words[k])
  {
    if words == [] then [] else [Capitalize(words[0])] + MapCapitalize(words[1..])
  }

  // ---------------------------------------------------------------------------
  // split and join
  // ---------------------------------------------------------------------------

  /**
   * `s.split(d)` for a one-character separator: always at least one part,
   * empty parts kept (`"a--b"` gives `["a", "", "b"]`, `""` gives `[""]`).
   */
  function Split(s: string, d: char): (parts: seq<string>)
    ensures |parts| >= 1
    ensures forall k :: 0 <= k < |parts| ==> d !in parts[k]
  {
    if s == [] then [[]]
    else if s[0] == d then [[]] + Split(s[1..], d)
    else
      var rest := Split(s[1..], d);
      [[s[0]] + rest[0]] + rest[1..]
  }

  /** `parts.join(sep)`. */
  function Join(parts: seq<string>, sep: string): string {
    if |parts| == 0 then []
    else if |parts| == 1 then parts[0]
    else parts[0] + sep + Join(parts[1..], sep)
  }

  function Last<T>(s: seq<T>): T
    requires |s| >= 1
  {
    s[|s| - 1]
  }

  /** Joining the parts of a split with the separator gives back the original. */
  lemma {:induction false} JoinSplit(s: string, d: char)
    ensures Join(Split(s, d), [d]) == s
  {
    if s == [] {
    } else if s[0] == d {
      JoinSplit(s[1..], d);
      assert s == [d] + s[1..];
    } else {
      var rest := Split(s[1..], d);
      JoinSplit(s[1..], d);
      JoinConsFirst(s[0], rest, [d]);
      assert s == [s[0]] + s[1..];
    }
  }

  /** Prepending a character to the first part prepends it to the join. */
  lemma JoinConsFirst(c: char, parts: seq<string>, sep: string)
    requires |parts| >= 1
    ensures Join([[c] + parts[0]] + parts[1..], sep) == [c] + Join(parts, sep)
  {
    var ps := [[c] + parts[0]] + parts[1..];
    if |parts| > 1 {
      assert ps[1..] == parts[1..];
    }
  }

  /** A string without the separator splits into itself alone. */
  lemma {:induction false} SplitNoSeparator(s: string, d: char)
    requires d !in s
    ensures Split(s, d) == [s]
  {
    if s != [] {
      SplitNoSeparator(s[1..], d);
      assert [s[0]] + s[1..] == s;
    }
  }

  /** A first part without the separator comes off the front of a split. */
  lemma {:induction false} SplitFirstPart(a: string, d: char, rest: string)
    requires d !in a
    ensures Split(a + [d] + rest, d) == [a] + Split(rest, d)
  {
    var s := a + [d] + rest;
    if a == [] {
      assert s[1..] == rest;
    } else {
      assert s[1..] == a[1..] + [d] + rest;
      SplitFirstPart(a[1..], d, rest);
      assert [a[0]] + a[1..] == a;
    }
  }

  /** A join of two or more parts is longer than its last part by at least a separator. */
  lemma {:induction false} JoinLastLength(parts: seq<string>, sep: string)
    requires |parts| >= 2
    ensures |Last(parts)| + |sep| <= |Join(parts, sep)|
  {
    if |parts| > 2 {
      JoinLastLength(parts[1..], sep);
      assert Last(parts[1..]) == Last(parts);
    }
  }

  /**
   * The last part of a split is the longest suffix without the separator:
   * it is the whole string, or it follows the last separator.
   */
  lemma {:induction false} SplitLast(s: string, d: char)
    ensures var p := Last(Split(s, d));
      |p| <= |s| && p == s[|s| - |p|..] &&
      (|p| == |s| || s[|s| - |p| - 1] == d)
  {
    if s != [] {
      var t := s[1..];
      SplitLast(t, d);
      var rest := Split(t, d);
      var p := Last(rest);
      assert |p| <= |t| && p == t[|t| - |p|..];
      JoinSplit(t, d);
      if |rest| >= 2 { JoinLastLength(rest, [d]); }
      if s[0] != d && |rest| == 1 {
        assert p == t;
        assert Last(Split(s, d)) == [s[0]] + t;
        assert s == [s[0]] + t;
      } else {
        assert Last(Split(s, d)) == p;
        assert t[|t| - |p|..] == s[|s| - |p|..];
        if |p| == |t| {
          assert s[|s| - |p| - 1] == s[0];
        } else {
          assert s[|s| - |p| - 1] == t[|t| - |p| - 1];
        }
      }
    }
  }

  // ---------------------------------------------------------------------------
  // replace with a literal pattern, first match only
  // ---------------------------------------------------------------------------

  predicate OccursAt(s: string, pat: string, i: int) {
    0 <= i && i + |pat| <= |s| && s[i..i + |pat|] == pat
  }

  /** `k` is where a regex without the `g` flag first matches `pat` in `s`. */
  predicate IsFirstOccurrence(s: string, pat: string, k: int) {
    OccursAt(s, pat, k) && forall j :: 0 <= j < k ==> !OccursAt(s, pat, j)
  }

  predicate Absent(s: string, pat: string) {
    forall j :: 0 <= j <= |s| ==> !OccursAt(s, pat, j)
  }

  /** Leftmost position at or after `from` where `pat` occurs in `s`. */
  function IndexOf(s: string, pat: string, from: nat): (r: Option<nat>)
    requires from <= |s|
    ensures r.Some? ==> from <= r.value && OccursAt(s, pat, r.value)
    ensures r.Some? ==> forall j :: from <= j < r.value ==> !OccursAt(s, pat, j)
    ensures r.None? ==> forall j :: from <= j <= |s| ==> !OccursAt(s, pat, j)
    decreases |s| - from
  {
    if OccursAt(s, pat, from) then Some(from)
    else if from == |s| then None
    else IndexOf(s, pat, from + 1)
  }

  /** `s.replace(/pat/, rep)`: the first match, and only it, is replaced. */
  function ReplaceFirst(s: string, pat: string, rep: string): (r: string)
    ensures Absent(s, pat) ==> r == s
    ensures forall k :: IsFirstOccurrence(s, pat, k) ==>
              r == s[..k] + rep + s[k + |pat|..]
  {
    match IndexOf(s, pat, 0)
    case None => s
    case Some(k) =>
      assert IsFirstOccurrence(s, pat, k);
      s[..k] + rep + s[k + |pat|..]
  }

  /** `s.replace(/^pat/, rep)`: only a match at the very start is replaced. */
  function ReplacePrefix(s: string, pat: string, rep: string): (r: string)
    ensures OccursAt(s, pat, 0) ==> r == rep + s[|pat|..]
    ensures !OccursAt(s, pat, 0) ==> r == s
  {
    if OccursAt(s, pat, 0) then rep + s[|pat|..] else s
  }

  /**
   * The anchored rewrite agrees with the unanchored one exactly when the
   * first match is at position 0, and otherwise leaves the string alone.
   */
  lemma AnchoredAgreesAtStart(s: string, pat: string, rep: string)
    ensures ReplacePrefix(s, pat, rep) ==
            if IndexOf(s, pat, 0) == Some(0) then ReplaceFirst(s, pat, rep) else s
  {
    if IndexOf(s, pat, 0) == Some(0) {
      assert IsFirstOccurrence(s, pat, 0);
    }
  }

  /** A pattern with a character that `s` lacks does not occur in `s`. */
  lemma AbsentByChar(s: string, pat: string, c: char)
    requires c in pat && c !in s
    ensures Absent(s, pat)
  {
    var m :| 0 <= m < |pat| && pat[m] == c;
    forall j | 0 <= j <= |s| ensures !OccursAt(s, pat, j) {
      if j + |pat| <= |s| {
        assert s[j..j + |pat|][m] == s[j + m];
      }
    }
  }

  /**
   * A match at `k` is the first one when the pattern's first character does
   * not appear before `k`.
   */
  lemma FirstOccurrenceAt(s: string, pat: string, k: nat)
    requires OccursAt(s, pat, k) && |pat| > 0 && pat[0] !in s[..k]
    ensures IsFirstOccurrence(s, pat, k)
  {
    forall j | 0 <= j < k ensures !OccursAt(s, pat, j) {
      if j + |pat| <= |s| {
        assert s[j..j + |pat|][0] == s[..k][j];
      }
    }
  }

  /**
   * Replacing the first occurrence of one character by another changes
   * exactly the position of that occurrence and keeps the length.
   */
  lemma ReplaceFirstCharAt(s: string, c: char, c': char)
    ensures |ReplaceFirst(s, [c], [c'])| == |s|
    ensures forall i :: 0 <= i < |s| ==>
              ReplaceFirst(s, [c], [c'])[i] == if s[i] == c && c !in s[..i] then c' else s[i]
  {
    var r := ReplaceFirst(s, [c], [c']);
    match IndexOf(s, [c], 0)
    case None =>
      forall i | 0 <= i < |s| ensures s[i] != c {
        assert !OccursAt(s, [c], i);
        assert s[i..i + 1] == [s[i]];
      }
    case Some(k) =>
      assert IsFirstOccurrence(s, [c], k);
      assert s[k..k + 1] == [s[k]];
      forall i | 0 <= i < |s|
        ensures r[i] == if s[i] == c && c !in s[..i] then c' else s[i]
      {
        if i < k {
          assert !OccursAt(s, [c], i);
          assert s[i..i + 1] == [s[i]];
          assert r[i] == s[i];
        } else if i == k {
          forall j | 0 <= j < k ensures s[..k][j] != c {
            assert !OccursAt(s, [c], j);
            assert s[j..j + 1] == [s[j]];
          }
        } else {
          assert s[..i][k] == c;
          assert r[i] == s[i];
        }
      }
  }
}
