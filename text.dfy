/** String helpers of java.lang.String that the matcher relies on, restricted
    to ASCII: trim, case folding, equalsIgnoreCase, contains, and the title
    normalisation built from them. */
module Text {

  /** String.trim removes every leading and trailing character at or below U+0020. */
  predicate IsBlank(c: char) {
    c <= ' '
  }

  function TrimStart(s: string): (r: string)
    ensures |r| <= |s| && r == s[|s| - |r|..]
    ensures r == [] || !IsBlank(r[0])
    ensures forall k :: 0 <= k < |s| - |r| ==> IsBlank(s[k])
  {
    if s == [] || !IsBlank(s[0]) then s
    else
      var r := TrimStart(s[1..]);
      assert forall k :: 1 <= k < |s| - |r| ==> s[k] == s[1..][k - 1];
      r
  }

  function TrimEnd(s: string): (r: string)
    ensures |r| <= |s| && r == s[..|r|]
    ensures r == [] || !IsBlank(r[|r| - 1])
    ensures forall k :: |r| <= k < |s| ==> IsBlank(s[k])
  {
    if s == [] || !IsBlank(s[|s| - 1]) then s
    else TrimEnd(s[..|s| - 1])
  }

  /** Java's String.trim: the slice of `s` left after dropping blank edges. */
  function Trim(s: string): (r: string)
    ensures |r| <= |s|
    ensures r == [] || (!IsBlank(r[0]) && !IsBlank(r[|r| - 1]))
    ensures (forall k :: 0 <= k < |s| ==> IsBlank(s[k])) ==> r == []
  {
    TrimEnd(TrimStart(s))
  }

  /** A string without blank edges is left alone by trim. */
  lemma {:induction false} TrimUnchanged(s: string)
    requires s == [] || (!IsBlank(s[0]) && !IsBlank(s[|s| - 1]))
    ensures Trim(s) == s
  {
  }

  /** Trimming text padded with blanks on both sides gives the text back. */
  lemma {:induction false} TrimOfPadded(before: string, s: string, after: string)
    requires forall i :: 0 <= i < |before| ==> IsBlank(before[i])
    requires forall i :: 0 <= i < |after| ==> IsBlank(after[i])
    requires s != [] && !IsBlank(s[0]) && !IsBlank(s[|s| - 1])
    ensures Trim(before + s + after) == s
  {
    var padded := before + s + after;
    assert padded == before + (s + after);
    TrimStartOfPadded(before, s + after);
    assert TrimStart(padded) == s + after;
    TrimEndOfPadded(s, after);
    assert Trim(padded) == TrimEnd(s + after);
  }

  lemma {:induction false} TrimStartOfPadded(blanks: string, s: string)
    requires forall i :: 0 <= i < |blanks| ==> IsBlank(blanks[i])
    requires s != [] && !IsBlank(s[0])
    ensures TrimStart(blanks + s) == s
  {
    if blanks != [] {
      assert (blanks + s)[1..] == blanks[1..] + s;
      TrimStartOfPadded(blanks[1..], s);
    } else {
      assert blanks + s == s;
    }
  }

  lemma {:induction false} TrimEndOfPadded(s: string, blanks: string)
    requires forall i :: 0 <= i < |blanks| ==> IsBlank(blanks[i])
    requires s != [] && !IsBlank(s[|s| - 1])
    ensures TrimEnd(s + blanks) == s
  {
    if blanks != [] {
      assert (s + blanks)[..|s + blanks| - 1] == s + blanks[..|blanks| - 1];
      TrimEndOfPadded(s, blanks[..|blanks| - 1]);
    } else {
      assert s + blanks == s;
    }
  }

  /** ASCII case folding; every other character is kept. */
  function LowerChar(c: char): (d: char)
    ensures 'A' <= c <= 'Z' ==> 'a' <= d <= 'z' && d as int == c as int + 32
    ensures !('A' <= c <= 'Z') ==> d == c
  {
    if 'A' <= c <= 'Z' then (c as int + 32) as char else c
  }

  /** String.toLowerCase over ASCII: one folded character per input character. */
  function ToLower(s: string): (r: string)
    ensures |r| == |s|
    ensures forall i :: 0 <= i < |s| ==> r[i] == LowerChar(s[i])
  {
    if s == [] then [] else [LowerChar(s[0])] + ToLower(s[1..])
  }

  /** The character class [a-z0-9] kept by the title normalisation. */
  predicate IsLowerAlnum(c: char) {
    'a' <= c <= 'z' || '0' <= c <= '9'
  }

  /** replaceAll("[^a-z0-9]", ""): drops every character outside the class,
      keeping the others in order. */
  function KeepLowerAlnum(s: string): (r: string)
    ensures |r| <= |s|
    ensures forall i :: 0 <= i < |r| ==> IsLowerAlnum(r[i])
  {
    if s == [] then []
    else if IsLowerAlnum(s[0]) then [s[0]] + KeepLowerAlnum(s[1..])
    else KeepLowerAlnum(s[1..])
  }

  /** The kept characters are exactly the input's characters of the class. */
  lemma {:induction false} KeepLowerAlnumMembers(s: string)
    ensures forall c :: c in KeepLowerAlnum(s) <==> c in s && IsLowerAlnum(c)
  {
    if s != [] {
      KeepLowerAlnumMembers(s[1..]);
      assert s == [s[0]] + s[1..];
    }
  }

  /** A string made only of [a-z0-9] is kept whole. */
  lemma {:induction false} KeepLowerAlnumClean(s: string)
    requires forall i :: 0 <= i < |s| ==> IsLowerAlnum(s[i])
    ensures KeepLowerAlnum(s) == s
  {
    if s != [] {
      KeepLowerAlnumClean(s[1..]);
    }
  }

  /** normalizeTitle: lower-case, then keep only [a-z0-9]. */
  function NormalizeTitle(title: string): (key: string)
    ensures |key| <= |title|
    ensures forall i :: 0 <= i < |key| ==> IsLowerAlnum(key[i])
  {
    KeepLowerAlnum(ToLower(title))
  }

  /** The key holds exactly the folded characters of the title that are in
      [a-z0-9]: nothing else survives and nothing of the class is lost. */
  lemma {:induction false} NormalizeTitleMembers(title: string)
    ensures forall c :: c in NormalizeTitle(title) <==>
      IsLowerAlnum(c) && exists i :: 0 <= i < |title| && LowerChar(title[i]) == c
  {
    var lowered := ToLower(title);
    KeepLowerAlnumMembers(lowered);
    forall c | c in lowered ensures exists i :: 0 <= i < |title| && LowerChar(title[i]) == c {
      var i :| 0 <= i < |lowered| && lowered[i] == c;
      assert LowerChar(title[i]) == c;
    }
  }

  lemma {:induction false} NormalizeTitleIdempotent(title: string)
    ensures NormalizeTitle(NormalizeTitle(title)) == NormalizeTitle(title)
  {
    var key := NormalizeTitle(title);
    assert ToLower(key) == key;
    KeepLowerAlnumClean(key);
  }

  lemma {:induction false} ToLowerAppend(a: string, b: string)
    ensures ToLower(a + b) == ToLower(a) + ToLower(b)
  {
  }

  lemma {:induction false} KeepLowerAlnumAppend(a: string, b: string)
    ensures KeepLowerAlnum(a + b) == KeepLowerAlnum(a) + KeepLowerAlnum(b)
  {
    if a == [] {
      assert a + b == b;
    } else {
      assert (a + b)[1..] == a[1..] + b;
      KeepLowerAlnumAppend(a[1..], b);
    }
  }

  /** The normalised key of a concatenation is the concatenation of the keys,
      so normalisation keeps the order of the kept characters. */
  lemma {:induction false} NormalizeTitleAppend(a: string, b: string)
    ensures NormalizeTitle(a + b) == NormalizeTitle(a) + NormalizeTitle(b)
  {
    ToLowerAppend(a, b);
    KeepLowerAlnumAppend(ToLower(a), ToLower(b));
  }

  /** String.equalsIgnoreCase over ASCII: same length, and every pair of
      characters at the same position agrees after case folding. */
  predicate EqualsIgnoreCase(a: string, b: string) {
    |a| == |b| && forall i :: 0 <= i < |a| ==> LowerChar(a[i]) == LowerChar(b[i])
  }

  lemma {:induction false} EqualsIgnoreCaseReflexive(a: string)
    ensures EqualsIgnoreCase(a, a)
  {
  }

  lemma {:induction false} EqualsIgnoreCaseIff(a: string, b: string)
    ensures EqualsIgnoreCase(a, b) <==> ToLower(a) == ToLower(b)
  {
    if ToLower(a) == ToLower(b) {
      assert forall i :: 0 <= i < |a| ==> LowerChar(a[i]) == ToLower(a)[i];
    }
  }

  /** Titles equal ignoring case have the same normalised key, so every hit of
      the case-insensitive comparison is also a hit of the normalised one. */
  lemma {:induction false} EqualsIgnoreCaseSameKey(a: string, b: string)
    requires EqualsIgnoreCase(a, b)
    ensures NormalizeTitle(a) == NormalizeTitle(b)
  {
    EqualsIgnoreCaseIff(a, b);
  }

  /** Punctuation, spaces and other characters outside [a-z0-9] after
      folding vanish from the key: inserting one anywhere in a title keeps its
      key. The converse fails: equalsIgnoreCase tells the two titles apart. */
  lemma {:induction false} PunctuationOnlyIgnoredByKey(a: string, c: char, b: string)
    requires !IsLowerAlnum(LowerChar(c))
    ensures NormalizeTitle(a + [c] + b) == NormalizeTitle(a + b)
    ensures !EqualsIgnoreCase(a + [c] + b, a + b)
  {
    NormalizeTitleAppend(a + [c], b);
    NormalizeTitleAppend(a, [c]);
    NormalizeTitleAppend(a, b);
    assert ToLower([c]) == [LowerChar(c)];
    assert KeepLowerAlnum([LowerChar(c)]) == [];
    assert NormalizeTitle([c]) == [];
  }

  /** `sub` occurs in `s` at position `i`. */
  predicate OccursAt(s: string, sub: string, i: int) {
    0 <= i <= |s| - |sub| && s[i..i + |sub|] == sub
  }

  /** String.contains: `sub` is a prefix of `s` or of one of its suffixes. */
  predicate Contains(s: string, sub: string) {
    sub <= s || (s != [] && Contains(s[1..], sub))
  }

  lemma {:induction false} ContainsIff(s: string, sub: string)
    ensures Contains(s, sub) <==> exists i :: OccursAt(s, sub, i)
  {
    if s != [] {
      ContainsIff(s[1..], sub);
      if Contains(s[1..], sub) {
        var i :| OccursAt(s[1..], sub, i);
        assert s[i + 1..i + 1 + |sub|] == s[1..][i..i + |sub|];
        assert OccursAt(s, sub, i + 1);
      }
      if sub <= s {
        assert OccursAt(s, sub, 0);
      }
      if exists i :: OccursAt(s, sub, i) {
        var i :| OccursAt(s, sub, i);
        if i > 0 {
          assert s[1..][i - 1..i - 1 + |sub|] == s[i..i + |sub|];
          assert OccursAt(s[1..], sub, i - 1);
        }
      }
    } else {
      if sub == [] {
        assert OccursAt(s, sub, 0);
      }
    }
  }

  /** A one-character string occurs exactly when the character does. */
  lemma {:induction false} ContainsChar(s: string, c: char)
    ensures Contains(s, [c]) <==> c in s
  {
    if s != [] {
      ContainsChar(s[1..], c);
      assert s == [s[0]] + s[1..];
    }
  }
}
