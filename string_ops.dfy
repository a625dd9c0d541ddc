/**
 * `String.prototype.replaceAll(searchValue, replaceValue)` with two string
 * arguments, as the ECMAScript standard defines it (sections 22.1.3.20
 * "String.prototype.replaceAll" and 22.1.3.19.1 "GetSubstitution" of
 * ECMA-262, 14th edition): every occurrence found from left to right is
 * replaced, the search resumes after the replaced text (one character later
 * for an empty search value), and the replacement text is expanded for the
 * `$` patterns that make sense without capture groups.
 */
module StringOps {
  import opened Lib

  /** StringIndexOf(s, p, from): the first index at or after `from` where `p` occurs, or -1. */
  function IndexOf(s: string, p: string, from: nat): (r: int)
    ensures r == -1 || (from <= r && r + |p| <= |s|)
    decreases |s| - from
  {
    if from + |p| > |s| then -1
    else if StartsAt(s, from, p) then from
    else IndexOf(s, p, from + 1)
  }

  /** IndexOf finds an occurrence, and none before it. */
  lemma {:induction false} IndexOfFound(s: string, p: string, from: nat)
    requires IndexOf(s, p, from) >= 0
    ensures StartsAt(s, IndexOf(s, p, from), p)
    ensures forall k :: from <= k < IndexOf(s, p, from) ==> !StartsAt(s, k, p)
    decreases |s| - from
  {
    if !StartsAt(s, from, p) {
      IndexOfFound(s, p, from + 1);
    }
  }

  /** When IndexOf finds nothing, `p` occurs nowhere at or after `from`. */
  lemma {:induction false} IndexOfNone(s: string, p: string, from: nat)
    requires IndexOf(s, p, from) < 0
    ensures forall k :: from <= k ==> !StartsAt(s, k, p)
    decreases |s| - from
  {
    if from + |p| <= |s| {
      IndexOfNone(s, p, from + 1);
    }
  }

  /** `advanceBy`: how far the search moves after an occurrence. */
  function Advance(p: string): (r: nat)
    ensures r >= 1 && (p != [] ==> r == |p|)
  {
    if p == [] then 1 else |p|
  }

  /**
   * GetSubstitution without capture groups: `$$` is `$`, `$&` the matched text,
   * `` $` `` the text before it and `$'` the text after it; every other
   * character, including a `$` before a digit or `<`, is copied.
   */
  function Substitution(matched: string, str: string, position: nat, repl: string): (r: string)
    requires position + |matched| <= |str|
    decreases |repl|
  {
    if repl == [] then []
    else if repl[0] == '$' && |repl| >= 2 && repl[1] == '$' then
      "$" + Substitution(matched, str, position, repl[2..])
    else if repl[0] == '$' && |repl| >= 2 && repl[1] == '&' then
      matched + Substitution(matched, str, position, repl[2..])
    else if repl[0] == '$' && |repl| >= 2 && repl[1] == '`' then
      str[..position] + Substitution(matched, str, position, repl[2..])
    else if repl[0] == '$' && |repl| >= 2 && repl[1] == '\'' then
      str[position + |matched|..] + Substitution(matched, str, position, repl[2..])
    else
      [repl[0]] + Substitution(matched, str, position, repl[1..])
  }

  /**
   * The result of `s.replaceAll(p, r)` from search position `from` on, where
   * `last` is the end of the previous occurrence (`endOfLastMatch`): the text
   * since `last` up to the next occurrence, its substitution, and the rest.
   */
  function ReplaceFrom(s: string, p: string, r: string, from: nat, last: nat): string
    requires last <= |s| && last <= from
    decreases |s| + 1 - from
  {
    var k := IndexOf(s, p, from);
    if k < 0 then s[last..]
    else s[last..k] + Substitution(p, s, k, r) + ReplaceFrom(s, p, r, k + Advance(p), k + |p|)
  }

  function ReplaceAll(s: string, p: string, r: string): string {
    ReplaceFrom(s, p, r, 0, 0)
  }

  // ---------------------------------------------------------------------------
  // Reference definitions
  // ---------------------------------------------------------------------------

  /**
   * Literal replacement of a non-empty `p`: scanning left to right, each
   * occurrence becomes `r` and scanning resumes right after it.
   */
  function ReplaceLiteral(s: string, p: string, r: string): string
    requires p != []
    decreases |s|
  {
    if |s| < |p| then s
    else if StartsWith(s, p) then r + ReplaceLiteral(s[|p|..], p, r)
    else [s[0]] + ReplaceLiteral(s[1..], p, r)
  }

  /** The number of occurrences `ReplaceLiteral` replaces. */
  function Occurrences(s: string, p: string): nat
    requires p != []
    decreases |s|
  {
    if |s| < |p| then 0
    else if StartsWith(s, p) then 1 + Occurrences(s[|p|..], p)
    else Occurrences(s[1..], p)
  }

  /** `r` inserted before every character of `s` and at its end. */
  function Spread(s: string, r: string): string {
    if s == [] then r else r + [s[0]] + Spread(s[1..], r)
  }

  // ---------------------------------------------------------------------------
  // Properties
  // ---------------------------------------------------------------------------

  /** A replacement text without `$` is inserted as it is. */
  lemma {:induction false} SubstitutionPlain(matched: string, str: string, position: nat, repl: string)
    requires position + |matched| <= |str| && '$' !in repl
    ensures Substitution(matched, str, position, repl) == repl
    decreases |repl|
  {
    if repl != [] {
      assert '$' !in repl[1..];
      SubstitutionPlain(matched, str, position, repl[1..]);
      assert [repl[0]] + repl[1..] == repl;
    }
  }

  /** The `$` patterns: `$&` is the matched text, `$$` a single dollar sign, `$1` stays literal. */
  lemma SubstitutionPatterns(matched: string, str: string, position: nat)
    requires position + |matched| <= |str|
    ensures Substitution(matched, str, position, "$&") == matched
    ensures Substitution(matched, str, position, "$$") == "$"
    ensures Substitution(matched, str, position, "$`") == str[..position]
    ensures Substitution(matched, str, position, "$'") == str[position + |matched|..]
    ensures Substitution(matched, str, position, "$1") == "$1"
  {
    PatternMatched(matched, str, position);
    PatternDollar(matched, str, position);
    PatternBefore(matched, str, position);
    PatternAfter(matched, str, position);
    PatternDigit(matched, str, position);
  }

  lemma PatternMatched(matched: string, str: string, position: nat)
    requires position + |matched| <= |str|
    ensures Substitution(matched, str, position, "$&") == matched
  {
    assert "$&"[2..] == [];
  }

  lemma PatternDollar(matched: string, str: string, position: nat)
    requires position + |matched| <= |str|
    ensures Substitution(matched, str, position, "$$") == "$"
  {
    assert "$$"[2..] == [];
  }

  lemma PatternBefore(matched: string, str: string, position: nat)
    requires position + |matched| <= |str|
    ensures Substitution(matched, str, position, "$`") == str[..position]
  {
    assert "$`"[2..] == [];
  }

  lemma PatternAfter(matched: string, str: string, position: nat)
    requires position + |matched| <= |str|
    ensures Substitution(matched, str, position, "$'") == str[position + |matched|..]
  {
    assert "$'"[2..] == [];
  }

  lemma PatternDigit(matched: string, str: string, position: nat)
    requires position + |matched| <= |str|
    ensures Substitution(matched, str, position, "$1") == "$1"
  {
    assert "$1"[1..] == "1";
    assert "1"[1..] == [];
  }

  /** No occurrence of `p` between `from` and `k`: literal replacement copies that stretch. */
  lemma {:induction false} ReplaceLiteralCopies(s: string, p: string, r: string, from: nat, k: nat)
    requires p != [] && from <= k <= |s|
    requires forall j :: from <= j < k ==> !StartsAt(s, j, p)
    ensures ReplaceLiteral(s[from..], p, r) == s[from..k] + ReplaceLiteral(s[k..], p, r)
    decreases k - from
  {
    if from < k {
      if |s| - from < |p| {
        ReplaceLiteralShort(s[from..], p, r);
        ReplaceLiteralShort(s[k..], p, r);
        assert s[from..k] + s[k..] == s[from..];
      } else {
        ReplaceLiteralCopies(s, p, r, from + 1, k);
        ReplaceLiteralCopy(s, p, r, from);
        AppendAssoc([s[from]], s[from + 1..k], ReplaceLiteral(s[k..], p, r));
        assert [s[from]] + s[from + 1..k] == s[from..k];
      }
    }
  }

  /** A text shorter than `p` is copied by literal replacement. */
  lemma ReplaceLiteralShort(t: string, p: string, r: string)
    requires p != [] && |t| < |p|
    ensures ReplaceLiteral(t, p, r) == t
  {
  }

  /** Where `p` does not occur, literal replacement copies one character. */
  lemma ReplaceLiteralCopy(s: string, p: string, r: string, i: nat)
    requires p != [] && i + |p| <= |s| && !StartsAt(s, i, p)
    ensures ReplaceLiteral(s[i..], p, r) == [s[i]] + ReplaceLiteral(s[i + 1..], p, r)
  {
    StartsWithRest(s, i, p);
    assert s[i..][1..] == s[i + 1..];
  }

  /** At an occurrence, literal replacement emits `r` and resumes after the occurrence. */
  lemma ReplaceLiteralAt(s: string, p: string, r: string, k: nat)
    requires p != [] && StartsAt(s, k, p)
    ensures ReplaceLiteral(s[k..], p, r) == r + ReplaceLiteral(s[k + |p|..], p, r)
  {
    StartsWithRest(s, k, p);
    assert s[k..][|p|..] == s[k + |p|..];
  }

  /** One step of ReplaceFrom at the occurrence `k` found by IndexOf, for a replacement without `$`. */
  lemma ReplaceFromStep(s: string, p: string, r: string, from: nat, k: nat)
    requires p != [] && '$' !in r && from <= |s| && IndexOf(s, p, from) == k
    ensures k + |p| <= |s|
    ensures ReplaceFrom(s, p, r, from, from) == s[from..k] + (r + ReplaceFrom(s, p, r, k + |p|, k + |p|))
  {
    ReplaceFromUnfold(s, p, r, from, from, k);
    assert Advance(p) == |p|;
    SubstitutionPlain(p, s, k, r);
    AppendAssoc(s[from..k], r, ReplaceFrom(s, p, r, k + |p|, k + |p|));
  }

  /** ReplaceFrom at an occurrence `k` found by IndexOf, by its definition. */
  lemma ReplaceFromUnfold(s: string, p: string, r: string, from: nat, last: nat, k: nat)
    requires last <= |s| && last <= from && IndexOf(s, p, from) == k
    ensures ReplaceFrom(s, p, r, from, last) == s[last..k] + Substitution(p, s, k, r) + ReplaceFrom(s, p, r, k + Advance(p), k + |p|)
  {
  }

  /** ReplaceFrom continues the literal replacement of a non-empty `p` once `r` has no `$`. */
  lemma {:induction false} ReplaceFromLiteral(s: string, p: string, r: string, from: nat)
    requires p != [] && '$' !in r && from <= |s|
    ensures ReplaceFrom(s, p, r, from, from) == ReplaceLiteral(s[from..], p, r)
    decreases |s| - from, 2
  {
    var k := IndexOf(s, p, from);
    if k < 0 {
      ReplaceFromLiteralNone(s, p, r, from);
    } else {
      ReplaceFromLiteralFound(s, p, r, from, k);
    }
  }

  lemma ReplaceFromLiteralNone(s: string, p: string, r: string, from: nat)
    requires p != [] && from <= |s| && IndexOf(s, p, from) < 0
    ensures ReplaceFrom(s, p, r, from, from) == ReplaceLiteral(s[from..], p, r)
  {
    IndexOfNone(s, p, from);
    ReplaceLiteralCopies(s, p, r, from, |s|);
    assert s[|s|..] == [];
  }

  /** The occurrence case of ReplaceFromLiteral: both sides reach the occurrence the same way. */
  lemma {:induction false} ReplaceFromLiteralFound(s: string, p: string, r: string, from: nat, k: nat)
    requires p != [] && '$' !in r && from <= |s| && IndexOf(s, p, from) == k
    ensures ReplaceFrom(s, p, r, from, from) == ReplaceLiteral(s[from..], p, r)
    decreases |s| - from, 1
  {
    ReplaceFromHead(s, p, r, from, k);
    LiteralFound(s, p, r, from, k);
  }

  /** Rewriting the tail of a concatenation (stated once, so that callers need no sequence reasoning). */
  lemma SameTail(a: string, b: string, x: string, y: string)
    requires x == y
    ensures a + (b + x) == a + (b + y)
  {
  }

  /** ReplaceFrom at the occurrence `k`: the text before it, `r`, and the rest by recursion. */
  lemma {:induction false} ReplaceFromHead(s: string, p: string, r: string, from: nat, k: nat)
    requires p != [] && '$' !in r && from <= |s| && IndexOf(s, p, from) == k
    ensures ReplaceFrom(s, p, r, from, from) == s[from..k] + (r + ReplaceLiteral(s[k + |p|..], p, r))
    decreases |s| - from, 0
  {
    ReplaceFromLiteral(s, p, r, k + |p|);
    ReplaceFromStep(s, p, r, from, k);
    SameTail(s[from..k], r, ReplaceFrom(s, p, r, k + |p|, k + |p|), ReplaceLiteral(s[k + |p|..], p, r));
  }

  /** Literal replacement from `from` reaches the occurrence `k` that IndexOf finds and replaces it. */
  lemma LiteralFound(s: string, p: string, r: string, from: nat, k: nat)
    requires p != [] && from <= |s| && IndexOf(s, p, from) == k
    ensures ReplaceLiteral(s[from..], p, r) == s[from..k] + (r + ReplaceLiteral(s[k + |p|..], p, r))
  {
    IndexOfFound(s, p, from);
    ReplaceLiteralAt(s, p, r, k);
    ReplaceLiteralCopies(s, p, r, from, k);
  }

  /** For a non-empty search value and a replacement without `$`, replaceAll is literal replacement. */
  lemma ReplaceAllLiteral(s: string, p: string, r: string)
    requires p != [] && '$' !in r
    ensures ReplaceAll(s, p, r) == ReplaceLiteral(s, p, r)
  {
    ReplaceFromLiteral(s, p, r, 0);
    assert s[0..] == s;
  }

  /** A search value that does not occur leaves the text unchanged, whatever the replacement. */
  lemma ReplaceAllAbsent(s: string, p: string, r: string)
    requires forall k :: 0 <= k <= |s| ==> !StartsAt(s, k, p)
    ensures ReplaceAll(s, p, r) == s
  {
    if IndexOf(s, p, 0) >= 0 {
      IndexOfFound(s, p, 0);
      assert false;
    }
    assert s[0..] == s;
  }

  /** Replacing a `$`-free text by itself changes nothing. */
  lemma {:induction false} ReplaceLiteralSelf(s: string, p: string)
    requires p != []
    ensures ReplaceLiteral(s, p, p) == s
    decreases |s|
  {
    if |s| >= |p| {
      if StartsWith(s, p) {
        ReplaceLiteralSelf(s[|p|..], p);
        assert s[..|p|] + s[|p|..] == s;
      } else {
        ReplaceLiteralSelf(s[1..], p);
        assert [s[0]] + s[1..] == s;
      }
    }
  }

  lemma ReplaceAllSelf(s: string, p: string)
    requires p != [] && '$' !in p
    ensures ReplaceAll(s, p, p) == s
  {
    ReplaceAllLiteral(s, p, p);
    ReplaceLiteralSelf(s, p);
  }

  /** Each replaced occurrence changes the length by |r| - |p|. */
  lemma {:induction false} ReplaceLiteralLength(s: string, p: string, r: string)
    requires p != []
    ensures |ReplaceLiteral(s, p, r)| == |s| + Occurrences(s, p) * (|r| - |p|)
    decreases |s|
  {
    if |s| >= |p| {
      var d := |r| - |p|;
      if StartsWith(s, p) {
        var t := s[|p|..];
        ReplaceLiteralLength(t, p, r);
        MulSucc(Occurrences(t, p), d);
      } else {
        ReplaceLiteralLength(s[1..], p, r);
      }
    }
  }

  /** Replacing with the empty string deletes `|p|` characters per occurrence. */
  lemma DeleteLength(s: string, p: string)
    requires p != []
    ensures |ReplaceLiteral(s, p, "")| == |s| - Occurrences(s, p) * |p|
  {
    ReplaceLiteralLength(s, p, "");
    MulNeg(Occurrences(s, p), |p|);
  }

  lemma MulNeg(n: int, d: int)
    ensures n * (0 - d) == - (n * d)
  {
  }

  lemma MulSucc(n: int, d: int)
    ensures (1 + n) * d == d + n * d
  {
  }

  /** `p` occurs somewhere in `s` exactly when literal replacement finds at least one occurrence. */
  lemma {:induction false} OccurrencesPositive(s: string, p: string)
    requires p != []
    ensures Occurrences(s, p) > 0 <==> exists k :: 0 <= k <= |s| && StartsAt(s, k, p)
    decreases |s|
  {
    if |s| < |p| {
      assert forall k :: 0 <= k <= |s| ==> !StartsAt(s, k, p);
    } else if StartsWith(s, p) {
      assert StartsAt(s, 0, p);
    } else {
      OccurrencesPositive(s[1..], p);
      forall k | 1 <= k <= |s| ensures StartsAt(s, k, p) <==> StartsAt(s[1..], k - 1, p) {
        assert s[1..][k - 1..] == s[k..];
        StartsWithRest(s, k, p);
        StartsWithRest(s[1..], k - 1, p);
      }
      if exists k :: 0 <= k <= |s| && StartsAt(s, k, p) {
        var k :| 0 <= k <= |s| && StartsAt(s, k, p);
        assert StartsAt(s[1..], k - 1, p);
      }
      if Occurrences(s, p) > 0 {
        var k :| 0 <= k <= |s[1..]| && StartsAt(s[1..], k, p);
        assert StartsAt(s, k + 1, p);
      }
    }
  }

  // ---------------------------------------------------------------------------
  // The empty search value.  `buildSvgDataURI` never substitutes one: every
  // URL it substitutes passed `filterer`, which drops the empty string.  These
  // lemmas state what `replaceAll` would do with one, for completeness.
  // ---------------------------------------------------------------------------

  /** The empty search value occurs at every position of the text, its end included. */
  lemma IndexOfEmpty(s: string, from: nat)
    requires from <= |s|
    ensures IndexOf(s, [], from) == from
  {
    assert s[from..from] == [];
  }

  /** At a position the empty search value matches, the text since `last` and one substitution come first. */
  lemma ReplaceFromEmptyStep(s: string, r: string, from: nat, last: nat)
    requires '$' !in r && last <= from <= |s|
    ensures ReplaceFrom(s, [], r, from, last) == s[last..from] + (r + ReplaceFrom(s, [], r, from + 1, from))
  {
    IndexOfEmpty(s, from);
    ReplaceFromUnfold(s, [], r, from, last, from);
    SubstitutionPlain([], s, from, r);
    AppendAssoc(s[last..from], r, ReplaceFrom(s, [], r, from + 1, from));
  }

  /** `Spread` of a suffix, peeled by one character. */
  lemma SpreadCons(s: string, r: string, j: nat)
    requires j < |s|
    ensures Spread(s[j..], r) == r + ([s[j]] + Spread(s[j + 1..], r))
  {
    assert s[j..][1..] == s[j + 1..];
    AppendAssoc(r, [s[j]], Spread(s[j + 1..], r));
  }

  /** After the occurrence of the empty search value at `i`, one character is copied and the next substitution follows. */
  lemma {:induction false} ReplaceFromEmpty(s: string, r: string, i: nat)
    requires '$' !in r && i < |s|
    ensures ReplaceFrom(s, [], r, i + 1, i) == [s[i]] + Spread(s[i + 1..], r)
    decreases |s| - i
  {
    ReplaceFromEmptyStep(s, r, i + 1, i);
    assert s[i..i + 1] == [s[i]];
    if i + 1 < |s| {
      ReplaceFromEmpty(s, r, i + 1);
      SpreadCons(s, r, i + 1);
    } else {
      assert IndexOf(s, [], i + 2) == -1;
      assert s[i + 1..] == [];
    }
  }

  /** The empty search value first occurs at index 0, before any text is copied. */
  lemma ReplaceAllEmptyFirst(s: string, r: string)
    requires '$' !in r
    ensures ReplaceAll(s, [], r) == r + ReplaceFrom(s, [], r, 1, 0)
  {
    ReplaceFromEmptyStep(s, r, 0, 0);
    assert s[0..0] == [];
  }

  /** An empty search value matches before every character and at the end. */
  lemma ReplaceAllEmpty(s: string, r: string)
    requires '$' !in r
    ensures ReplaceAll(s, [], r) == Spread(s, r)
  {
    ReplaceAllEmptyFirst(s, r);
    if s == [] {
      assert IndexOf(s, [], 1) == -1;
    } else {
      ReplaceFromEmpty(s, r, 0);
    }
  }

  /**
   * Substitution is not idempotent: deleting "ab" from "aabb" joins the text
   * around it into a new occurrence, which a second pass deletes.
   */
  lemma ReplaceAllNotIdempotent()
    ensures ReplaceAll("aabb", "ab", "") == "ab"
    ensures ReplaceAll("ab", "ab", "") == ""
  {
    ReplaceAllLiteral("aabb", "ab", "");
    ReplaceAllLiteral("ab", "ab", "");
    LiteralAabb();
    LiteralAb("ab", 0);
    assert "ab"[0..] == "ab";
  }

  /** Deleting `ab` from `aabb` scans past `a` and deletes the occurrence at index 1. */
  lemma LiteralAabb()
    ensures ReplaceLiteral("aabb", "ab", "") == "ab"
  {
    var s := "aabb";
    assert !StartsAt(s, 0, "ab") by { assert s[0..2][1] != "ab"[1]; }
    ReplaceLiteralCopy(s, "ab", "", 0);
    assert s[0..] == s && s[1..] == "abb";
    LiteralAb("abb", 0);
    assert "abb"[2..] == "b";
    ReplaceLiteralShort("b", "ab", "");
  }

  /** An occurrence of `ab` at `k` is deleted. */
  lemma LiteralAb(s: string, k: nat)
    requires k + 2 <= |s| && s[k] == 'a' && s[k + 1] == 'b'
    ensures ReplaceLiteral(s[k..], "ab", "") == ReplaceLiteral(s[k + 2..], "ab", "")
  {
    assert s[k..k + 2] == "ab";
    ReplaceLiteralAt(s, "ab", "", k);
  }
}
