/** Case normalisation and the byte-wise lexicographic order the record store
    uses for its last-name index (Engine.h, `toLower` and `std::string`'s
    `operator<`). Characters stand for the bytes of the C++ string; only the
    ASCII letters 'A'..'Z' are folded, as in the "C" locale. */
module Text {

  import OrderedIndex

  predicate IsUpper(c: char) {
    'A' <= c <= 'Z'
  }

  /** The folding of one byte: `tolower` in the "C" locale. */
  function LowerChar(c: char): (d: char)
    ensures !IsUpper(d)
    ensures !IsUpper(c) ==> d == c
    ensures IsUpper(c) ==> 'a' <= d <= 'z' && d as int - c as int == 'a' as int - 'A' as int
  {
    if IsUpper(c) then (c as int - 'A' as int + 'a' as int) as char else c
  }

  /** A string already in the normal form the last-name index is keyed by. */
  predicate IsLowerCased(s: string) {
    forall i :: 0 <= i < |s| ==> !IsUpper(s[i])
  }

  /** Two strings that differ at most in the case of ASCII letters. */
  predicate SameIgnoringCase(s: string, t: string) {
    |s| == |t| && forall i :: 0 <= i < |s| ==> LowerChar(s[i]) == LowerChar(t[i])
  }

  /** `toLower`: folds every byte of the string independently. */
  function ToLower(s: string): (r: string)
    ensures |r| == |s|
    ensures IsLowerCased(r)
    ensures SameIgnoringCase(r, s)
  {
    seq(|s|, i requires 0 <= i < |s| => LowerChar(s[i]))
  }

  /** Folding is idempotent: the index key of an index key is itself. */
  lemma ToLowerIdempotent(s: string)
    ensures ToLower(ToLower(s)) == ToLower(s)
  {
    LowerCasedIsFixed(ToLower(s));
  }

  /** A string is in normal form exactly when folding leaves it unchanged. */
  lemma LowerCasedIsFixed(s: string)
    ensures IsLowerCased(s) <==> ToLower(s) == s
  {
    if ToLower(s) == s {
      assert forall i :: 0 <= i < |s| ==> s[i] == ToLower(s)[i];
    }
  }

  /** Two strings have the same index key exactly when they agree up to case. */
  lemma SameKeyIffSameIgnoringCase(s: string, t: string)
    ensures ToLower(s) == ToLower(t) <==> SameIgnoringCase(s, t)
  {
    if ToLower(s) == ToLower(t) {
      assert forall i :: 0 <= i < |s| ==> ToLower(s)[i] == ToLower(t)[i];
    }
  }

  /** Folding commutes with concatenation, so a string that starts with a
      prefix has a key that starts with the prefix's key. */
  lemma ToLowerAppend(a: string, b: string)
    ensures ToLower(a + b) == ToLower(a) + ToLower(b)
  {
  }

  // ---------------------------------------------------------------------
  // Lexicographic order of std::string (byte by byte, a proper prefix first)

  /** `a < b` on `std::string`. Dafny's own `<` on sequences is the proper
      prefix relation, so the order is spelled out here. */
  predicate LexLess(a: string, b: string)
    decreases |a|
  {
    if |a| == 0 then |b| > 0
    else if |b| == 0 then false
    else a[0] < b[0] || (a[0] == b[0] && LexLess(a[1..], b[1..]))
  }

  /** `a <= b` on `std::string`. */
  predicate LexLe(a: string, b: string) {
    a == b || LexLess(a, b)
  }

  lemma {:induction false} LexLessIrreflexive(a: string)
    ensures !LexLess(a, a)
    decreases |a|
  {
    if |a| > 0 {
      LexLessIrreflexive(a[1..]);
    }
  }

  lemma {:induction false} LexLessTransitive(a: string, b: string, c: string)
    requires LexLess(a, b) && LexLess(b, c)
    ensures LexLess(a, c)
    decreases |a|
  {
    if |a| > 0 {
      assert |b| > 0 && |c| > 0;
      if a[0] == b[0] && b[0] == c[0] {
        LexLessTransitive(a[1..], b[1..], c[1..]);
      }
    }
  }

  lemma {:induction false} LexLessConnected(a: string, b: string)
    requires a != b
    ensures LexLess(a, b) || LexLess(b, a)
    decreases |a|
  {
    if |a| > 0 && |b| > 0 && a[0] == b[0] {
      assert a == [a[0]] + a[1..] && b == [b[0]] + b[1..];
      LexLessConnected(a[1..], b[1..]);
    }
  }

  /** So the last-name index is an ordered index in the sense of OrderedIndex. */
  lemma LexLessIsStrictTotalOrder()
    ensures OrderedIndex.StrictTotalOrder(LexLess)
  {
    forall a: string
      ensures !LexLess(a, a)
    {
      LexLessIrreflexive(a);
    }
    forall a: string, b: string, c: string | LexLess(a, b) && LexLess(b, c)
      ensures LexLess(a, c)
    {
      LexLessTransitive(a, b, c);
    }
    forall a: string, b: string | a != b
      ensures LexLess(a, b) || LexLess(b, a)
    {
      LexLessConnected(a, b);
    }
  }

  // ---------------------------------------------------------------------
  // The prefix window [lo, lo + "{"] scanned by prefixByLast

  /** The brace byte '{' (0x7B), the byte right after 'z'. */
  const Brace: char := '{'

  /** `k` lies in the inclusive key window [lo, lo + "{"]. */
  predicate InPrefixRange(lo: string, k: string) {
    !LexLess(k, lo) && !LexLess(lo + [Brace], k)
  }

  /** `lo` is a prefix of `k`. */
  predicate StartsWith(k: string, lo: string) {
    |lo| <= |k| && k[..|lo|] == lo
  }

  /** Exactly the keys in the window: the strings that start with `lo` and go
      on with nothing, with a byte below '{', or with exactly "{". */
  lemma {:induction false} PrefixRangeExactly(lo: string, k: string)
    ensures InPrefixRange(lo, k) <==>
      (StartsWith(k, lo) && (|k| == |lo| || k[|lo|] < Brace || k == lo + [Brace]))
    decreases |lo|
  {
    if |lo| == 0 {
      assert lo + [Brace] == [Brace];
      if |k| > 0 {
        assert LexLess([Brace], k) <==> Brace < k[0] || (Brace == k[0] && |k| > 1);
        if k[0] == Brace && |k| == 1 {
          assert k == lo + [Brace];
        }
      }
    } else if |k| == 0 {
      assert LexLess(k, lo);
    } else {
      var hi := lo + [Brace];
      assert hi[0] == lo[0] && hi[1..] == lo[1..] + [Brace];
      PrefixRangeExactly(lo[1..], k[1..]);
      if k[0] == lo[0] {
        assert InPrefixRange(lo, k) <==> InPrefixRange(lo[1..], k[1..]);
        assert StartsWith(k, lo) <==> StartsWith(k[1..], lo[1..]) by {
          if StartsWith(k[1..], lo[1..]) {
            assert k[..|lo|] == [k[0]] + k[1..][..|lo| - 1];
            assert lo == [lo[0]] + lo[1..];
          }
        }
        if StartsWith(k, lo) && |k| > |lo| {
          assert k[|lo|] == k[1..][|lo[1..]|];
        }
        assert k == lo + [Brace] <==> k[1..] == lo[1..] + [Brace] by {
          if k[1..] == lo[1..] + [Brace] {
            assert k == [k[0]] + k[1..];
            assert lo + [Brace] == [lo[0]] + (lo[1..] + [Brace]);
          }
        }
      } else {
        assert !InPrefixRange(lo, k);
      }
    }
  }

  /** The practical consequence: a key that starts with `lo` is found when the
      byte after the prefix (if any) sorts below '{'. */
  lemma PrefixMatchFound(lo: string, k: string)
    requires StartsWith(k, lo)
    requires |k| == |lo| || k[|lo|] < Brace
    ensures InPrefixRange(lo, k)
  {
    PrefixRangeExactly(lo, k);
  }

  /** And its limit: a key that starts with `lo` but goes on with a byte above
      '{' (say the first byte of a UTF-8 encoded accented letter) is not in
      the window. */
  lemma PrefixWindowMissesHighBytes(lo: string, k: string)
    requires StartsWith(k, lo)
    requires |k| > |lo| && k[|lo|] > Brace
    ensures !InPrefixRange(lo, k)
  {
    PrefixRangeExactly(lo, k);
  }

  /** Worked example of the case-insensitive window: the prefix "Smi" finds
      "SMITHSON". */
  lemma PrefixSearchFinds()
    ensures InPrefixRange(ToLower("Smi"), ToLower("SMITHSON"))
  {
    assert ToLower("Smi") == "smi";
    assert ToLower("SMITHSON") == "smithson";
    PrefixMatchFound("smi", "smithson");
  }

  /** And the other way: the prefix "smithz" does not find "Smith". */
  lemma PrefixSearchMisses()
    ensures !InPrefixRange(ToLower("smithz"), ToLower("Smith"))
  {
    assert ToLower("smithz") == "smithz";
    assert ToLower("Smith") == "smith";
    PrefixRangeExactly("smithz", "smith");
  }

  /** The search promise in the user's terms: a name that begins with the
      prefix up to ASCII case, and goes on with nothing or with a byte whose
      folding sorts below '{', lies in the window the prefix search walks. */
  lemma CaseInsensitivePrefixFound(prefix: string, head: string, rest: string)
    requires SameIgnoringCase(head, prefix)
    requires |rest| == 0 || LowerChar(rest[0]) < Brace
    ensures InPrefixRange(ToLower(prefix), ToLower(head + rest))
  {
    ToLowerAppend(head, rest);
    SameKeyIffSameIgnoringCase(head, prefix);
    var k := ToLower(head + rest);
    var lo := ToLower(prefix);
    assert k == lo + ToLower(rest);
    assert k[..|lo|] == lo;
    PrefixMatchFound(lo, k);
  }
}
