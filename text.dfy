/** The two string operations the resort list relies on: the case-insensitive
    substring test behind `localizedCaseInsensitiveContains`, and the ordering
    behind Swift's `String <`.

    Both are modelled on code points: case folding maps ASCII `A`..`Z` to
    `a`..`z` and leaves every other character alone, and `<` is lexicographic
    on characters with a proper prefix ordered first.
 */
module Text {

  /** True of the ASCII capital letters, the only characters folding changes. */
  predicate IsUpper(c: char) {
    'A' <= c <= 'Z'
  }

  /** Case folding of one character. */
  function Lower(c: char): (d: char)
    ensures !IsUpper(d)
    ensures d != c ==> IsUpper(c) && d as int - c as int == 'a' as int - 'A' as int
  {
    if IsUpper(c) then (c as int - 'A' as int + 'a' as int) as char else c
  }

  /** Case folding of a whole string, character by character. */
  function Fold(s: string): (f: string)
    ensures |f| == |s|
    ensures forall i :: 0 <= i < |f| ==> !IsUpper(f[i])
    ensures forall i :: 0 <= i < |s| && !IsUpper(s[i]) ==> f[i] == s[i]
    ensures forall i :: 0 <= i < |s| && IsUpper(s[i]) ==>
      f[i] as int == s[i] as int + ('a' as int - 'A' as int)
  {
    seq(|s|, i requires 0 <= i < |s| => Lower(s[i]))
  }

  /** Folding a folded string changes nothing. */
  lemma FoldIdempotent(s: string)
    ensures Fold(Fold(s)) == Fold(s)
  {
    var f := Fold(s);
    assert forall i :: 0 <= i < |f| ==> Lower(f[i]) == f[i];
  }

  /** `needle` occurs in `hay` starting at position `i`. */
  ghost predicate OccursAt(hay: string, needle: string, i: int) {
    0 <= i && i + |needle| <= |hay| && hay[i..i + |needle|] == needle
  }

  /** Exact substring test: `needle` is a prefix of `hay` or of one of its suffixes. */
  predicate Contains(hay: string, needle: string)
    ensures Contains(hay, needle) ==> |needle| <= |hay|
    decreases |hay|
  {
    needle <= hay || (hay != [] && Contains(hay[1..], needle))
  }

  /** The recursive substring test agrees with "there is a position where it occurs". */
  lemma {:induction false} ContainsIffOccurs(hay: string, needle: string)
    ensures Contains(hay, needle) <==> exists i :: OccursAt(hay, needle, i)
    decreases |hay|
  {
    if needle <= hay {
      assert OccursAt(hay, needle, 0);
    } else if hay == [] {
    } else {
      ContainsIffOccurs(hay[1..], needle);
      if Contains(hay[1..], needle) {
        var i :| OccursAt(hay[1..], needle, i);
        OccursInTail(hay, needle, i + 1);
      } else {
        assert !OccursAt(hay, needle, 0);
        forall i | 1 <= i ensures !OccursAt(hay, needle, i) {
          OccursInTail(hay, needle, i);
        }
      }
    }
  }

  /** An occurrence past the first position is an occurrence in the tail. */
  lemma OccursInTail(hay: string, needle: string, i: int)
    requires hay != [] && 1 <= i
    ensures OccursAt(hay, needle, i) <==> OccursAt(hay[1..], needle, i - 1)
  {
    if i + |needle| <= |hay| {
      assert hay[1..][i - 1..i - 1 + |needle|] == hay[i..i + |needle|];
    }
  }

  /** A needle whose first character is nowhere in `hay` is not in `hay`. */
  lemma {:induction false} MissingFirstCharNotContained(hay: string, needle: string)
    requires needle != [] && needle[0] !in hay
    ensures !Contains(hay, needle)
    decreases |hay|
  {
    if hay != [] {
      MissingFirstCharNotContained(hay[1..], needle);
    }
  }

  /** The model of `localizedCaseInsensitiveContains`: after folding both sides,
      `needle` occurs in `hay`. An empty needle is never found, as with
      Foundation's range search. */
  predicate CaseInsensitiveContains(hay: string, needle: string)
    ensures CaseInsensitiveContains(hay, needle) ==> needle != [] && |needle| <= |hay|
  {
    needle != [] && Contains(Fold(hay), Fold(needle))
  }

  /** The case-insensitive test holds exactly when the folded needle occurs
      somewhere in the folded haystack. */
  lemma CaseInsensitiveIffOccurs(hay: string, needle: string)
    ensures CaseInsensitiveContains(hay, needle) <==>
      needle != [] && exists i :: OccursAt(Fold(hay), Fold(needle), i)
  {
    ContainsIffOccurs(Fold(hay), Fold(needle));
  }

  /** Folding keeps an occurrence in place. */
  lemma OccursAtFolded(hay: string, needle: string, i: int)
    requires OccursAt(hay, needle, i)
    ensures OccursAt(Fold(hay), Fold(needle), i)
  {
    assert forall k :: 0 <= k < |needle| ==> Fold(hay)[i + k] == Lower(hay[i + k]) == Lower(needle[k]);
    assert Fold(hay)[i..i + |needle|] == Fold(needle);
  }

  /** An exact, non-empty occurrence is also a case-insensitive one. */
  lemma ExactMatchIsCaseInsensitive(hay: string, needle: string)
    requires needle != [] && Contains(hay, needle)
    ensures CaseInsensitiveContains(hay, needle)
  {
    ContainsIffOccurs(hay, needle);
    var i :| OccursAt(hay, needle, i);
    OccursAtFolded(hay, needle, i);
    ContainsIffOccurs(Fold(hay), Fold(needle));
  }

  /** Every non-empty string is found in itself: searching for a resort's full
      name finds it. */
  lemma FindsItself(s: string)
    requires s != []
    ensures CaseInsensitiveContains(s, s)
  {
    assert Fold(s) <= Fold(s);
  }

  /** The test does not see the case of either argument. */
  lemma CaseInsensitiveIgnoresCase(hay: string, needle: string)
    ensures CaseInsensitiveContains(Fold(hay), needle) == CaseInsensitiveContains(hay, needle)
    ensures CaseInsensitiveContains(hay, Fold(needle)) == CaseInsensitiveContains(hay, needle)
  {
    FoldIdempotent(hay);
    FoldIdempotent(needle);
  }

  /** The model of Swift's `String <`: lexicographic on characters, and a proper
      prefix comes first. */
  predicate Less(a: string, b: string)
    ensures Less(a, b) ==> a != b
    decreases |a|
  {
    if a == [] then b != []
    else if b == [] then false
    else if a[0] != b[0] then a[0] < b[0]
    else Less(a[1..], b[1..])
  }

  /** The non-strict order that "non-decreasing under `<`" means: not above. */
  predicate LessEq(a: string, b: string)
    ensures LessEq(a, b) <==> a == b || Less(a, b)
  {
    NotAboveCases(a, b);
    !Less(b, a)
  }

  /** Not above means equal or below, since `<` is a strict total order. */
  lemma NotAboveCases(a: string, b: string)
    ensures !Less(b, a) <==> a == b || Less(a, b)
  {
    LessConnected(a, b);
    if Less(a, b) {
      LessAsymmetric(a, b);
    }
  }

  /** `a` is a proper prefix of `b`. */
  ghost predicate ProperPrefix(a: string, b: string) {
    |a| < |b| && a == b[..|a|]
  }

  /** `a` and `b` agree before position `k` and `a` has the smaller character at `k`. */
  ghost predicate FirstDifferenceAt(a: string, b: string, k: int) {
    0 <= k < |a| && k < |b| && a[..k] == b[..k] && a[k] < b[k]
  }

  lemma {:induction false} ProperPrefixIsLess(a: string, b: string)
    requires ProperPrefix(a, b)
    ensures Less(a, b)
    decreases |a|
  {
    if a != [] {
      assert a[0] == b[..|a|][0] == b[0];
      assert a[1..] == b[1..][..|a| - 1];
      ProperPrefixIsLess(a[1..], b[1..]);
    }
  }

  lemma {:induction false} FirstDifferenceIsLess(a: string, b: string, k: int)
    requires FirstDifferenceAt(a, b, k)
    ensures Less(a, b)
    decreases k
  {
    if k > 0 {
      assert a[0] == a[..k][0] == b[..k][0] == b[0];
      assert a[1..][..k - 1] == a[..k][1..];
      assert b[1..][..k - 1] == b[..k][1..];
      FirstDifferenceIsLess(a[1..], b[1..], k - 1);
    }
  }

  lemma {:induction false} LessHasWitness(a: string, b: string)
    requires Less(a, b)
    ensures ProperPrefix(a, b) || exists k :: FirstDifferenceAt(a, b, k)
    decreases |a|
  {
    if a == [] {
      assert ProperPrefix(a, b);
    } else if a[0] != b[0] {
      assert a[..0] == b[..0];
      assert FirstDifferenceAt(a, b, 0);
    } else {
      LessHasWitness(a[1..], b[1..]);
      assert a == [a[0]] + a[1..] && b == [b[0]] + b[1..];
      if ProperPrefix(a[1..], b[1..]) {
        assert b[..|a|] == [b[0]] + b[1..][..|a| - 1];
        assert ProperPrefix(a, b);
      } else {
        var k :| FirstDifferenceAt(a[1..], b[1..], k);
        assert a[..k + 1] == [a[0]] + a[1..][..k];
        assert b[..k + 1] == [b[0]] + b[1..][..k];
        assert FirstDifferenceAt(a, b, k + 1);
      }
    }
  }

  /** `Less` holds exactly when `a` is a proper prefix of `b` or has the smaller
      character at the first position where they differ. */
  lemma LessIffFirstDifference(a: string, b: string)
    ensures Less(a, b) <==> ProperPrefix(a, b) || exists k :: FirstDifferenceAt(a, b, k)
  {
    if Less(a, b) {
      LessHasWitness(a, b);
    } else if ProperPrefix(a, b) {
      ProperPrefixIsLess(a, b);
    } else if k :| FirstDifferenceAt(a, b, k) {
      FirstDifferenceIsLess(a, b, k);
    }
  }

  lemma {:induction false} LessIrreflexive(a: string)
    ensures !Less(a, a)
    decreases |a|
  {
    if a != [] {
      LessIrreflexive(a[1..]);
    }
  }

  lemma {:induction false} LessTransitive(a: string, b: string, c: string)
    requires Less(a, b) && Less(b, c)
    ensures Less(a, c)
    decreases |a|
  {
    if a != [] && a[0] == b[0] && b[0] == c[0] {
      LessTransitive(a[1..], b[1..], c[1..]);
    }
  }

  /** Any two different strings are ordered one way or the other. */
  lemma {:induction false} LessConnected(a: string, b: string)
    ensures a == b || Less(a, b) || Less(b, a)
    decreases |a|
  {
    if a != [] && b != [] && a[0] == b[0] {
      LessConnected(a[1..], b[1..]);
      if a[1..] == b[1..] {
        assert a == [a[0]] + a[1..] && b == [b[0]] + b[1..];
      }
    }
  }

  lemma LessAsymmetric(a: string, b: string)
    requires Less(a, b)
    ensures !Less(b, a)
  {
    if Less(b, a) {
      LessTransitive(a, b, a);
      LessIrreflexive(a);
    }
  }

  /** `LessEq` is a total preorder, which is what a sorted result is measured by. */
  lemma LessEqTransitive(a: string, b: string, c: string)
    requires LessEq(a, b) && LessEq(b, c)
    ensures LessEq(a, c)
  {
    if Less(c, a) {
      LessConnected(a, b);
      if Less(a, b) {
        LessTransitive(c, a, b);
      }
    }
  }

  lemma LessEqTotal(a: string, b: string)
    ensures LessEq(a, b) || LessEq(b, a)
  {
    if Less(a, b) {
      LessAsymmetric(a, b);
    }
  }
}
