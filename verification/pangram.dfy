/**
 * Pangram classification of ASCII text: Perfect when every letter of the
 * English alphabet occurs exactly once, Good when every letter occurs and
 * some letter repeats, Bad otherwise. Case is ignored; whitespace and ASCII
 * punctuation are skipped; any other character makes the text Bad.
 */
module Pangrams {
  import opened Wrappers

  datatype PangramKind = Perfect | Good | Bad

  /*************************************************************************
   * Character classes
   *************************************************************************/

  predicate IsAscii(s: string)
  {
    forall i | 0 <= i < |s| :: s[i] as int < 128
  }

  /** `char::is_whitespace` restricted to ASCII: tab, line feed, vertical tab,
    * form feed, carriage return and space. */
  predicate IsWhitespace(c: char)
  {
    (9 <= c as int <= 13) || c == ' '
  }

  /** `char::is_ascii_punctuation`: the printable ASCII characters that are
    * neither letters, digits nor space. */
  predicate IsAsciiPunctuation(c: char)
  {
    (33 <= c as int <= 47) || (58 <= c as int <= 64) || (91 <= c as int <= 96) || (123 <= c as int <= 126)
  }

  predicate IsAsciiAlphabetic(c: char)
  {
    ('A' <= c <= 'Z') || ('a' <= c <= 'z')
  }

  predicate IsLower(c: char)
  {
    'a' <= c <= 'z'
  }

  /** `to_lowercase` on an ASCII character. */
  function ToLower(c: char): (r: char)
    ensures 'A' <= c <= 'Z' ==> IsLower(r) && r as int == c as int + 32
    ensures !('A' <= c <= 'Z') ==> r == c
  {
    if 'A' <= c <= 'Z' then (c as int + 32) as char else c
  }

  /** The capital of a lowercase ASCII letter. */
  function Upper(c: char): (r: char)
    requires IsLower(c)
    ensures 'A' <= r <= 'Z' && ToLower(r) == c
  {
    (c as int - 32) as char
  }

  /** `str::to_lowercase` on ASCII text, character by character; no capital
    * remains. */
  function Lowercase(s: string): (r: string)
    ensures |r| == |s|
    ensures forall i :: 0 <= i < |s| ==> r[i] == ToLower(s[i])
    ensures forall i :: 0 <= i < |r| ==> !('A' <= r[i] <= 'Z')
  {
    seq(|s|, i requires 0 <= i < |s| => ToLower(s[i]))
  }

  /** What lowercasing does to the counter: a lowercase letter occurs as
    * often as it and its capital did, a capital not at all, and every other
    * character as often as before. */
  lemma {:induction false} LowercaseCounts(s: string, c: char)
    ensures multiset(Lowercase(s))[c] ==
              if IsLower(c) then multiset(s)[c] + multiset(s)[Upper(c)]
              else if 'A' <= c <= 'Z' then 0
              else multiset(s)[c]
    decreases |s|
  {
    if |s| > 0 {
      var n := |s| - 1;
      var x := s[n];
      LowercaseCounts(s[..n], c);
      assert s == s[..n] + [x];
      assert Lowercase(s) == Lowercase(s[..n]) + [ToLower(x)];
      assert multiset(Lowercase(s))[c] == multiset(Lowercase(s[..n]))[c] + (if ToLower(x) == c then 1 else 0);
      assert multiset(s)[c] == multiset(s[..n])[c] + (if x == c then 1 else 0);
      if IsLower(c) {
        assert multiset(s)[Upper(c)] == multiset(s[..n])[Upper(c)] + (if x == Upper(c) then 1 else 0);
      }
      LowercaseOne(x, c);
    }
  }

  /** `LowercaseCounts` for a single character `x`. */
  lemma LowercaseOne(x: char, c: char)
    ensures (if ToLower(x) == c then 1 else 0) ==
              if IsLower(c) then (if x == c then 1 else 0) + (if x == Upper(c) then 1 else 0)
              else if 'A' <= c <= 'Z' then 0
              else if x == c then 1 else 0
  {
  }

  /** The `j`-th letter of the alphabet, `'a'` being the 0th. */
  function Letter(j: nat): (r: char)
    requires j < 26
    ensures IsLower(r)
  {
    ('a' as int + j) as char
  }

  /** Characters a lowercased text may contain without being Bad. */
  predicate Allowed(c: char)
  {
    IsWhitespace(c) || IsAsciiPunctuation(c) || IsLower(c)
  }

  predicate OnlyAllowed(t: string)
  {
    forall k :: 0 <= k < |t| ==> Allowed(t[k])
  }

  /** Occurrences of the `j`-th letter in `t`. */
  function Count(t: string, j: nat): nat
    requires j < 26
  {
    multiset(t)[Letter(j)]
  }

  /** The classification, stated on letter counts of the lowercased text. */
  function Classify(s: string): PangramKind
  {
    if !IsAscii(s) then Bad
    else
      var t := Lowercase(s);
      if !OnlyAllowed(t) then Bad
      else if exists j :: 0 <= j < 26 && Count(t, j) == 0 then Bad
      else if forall j :: 0 <= j < 26 ==> Count(t, j) == 1 then Perfect
      else Good
  }

  /*************************************************************************
   * The two loops of `is_pangram`
   *************************************************************************/

  /** The counting loop over the lowercased text: `None` where it returns Bad
    * early, otherwise the 26 letter counts. */
  method CountLetters(t: string) returns (r: Option<seq<nat>>)
    ensures r.None? <==> !OnlyAllowed(t)
    ensures r.Some? ==> |r.value| == 26 && forall j :: 0 <= j < 26 ==> r.value[j] == Count(t, j)
  {
    var counts: seq<nat> := seq(26, _ => 0);
    var i := 0;
    while i < |t|
      invariant 0 <= i <= |t|
      invariant |counts| == 26
      invariant forall j :: 0 <= j < 26 ==> counts[j] == multiset(t[..i])[Letter(j)]
      invariant forall k :: 0 <= k < i ==> Allowed(t[k])
    {
      var ch := t[i];
      assert t[..i + 1] == t[..i] + [ch];
      if IsWhitespace(ch) || IsAsciiPunctuation(ch) {
        i := i + 1;
        continue;
      }
      if !IsAsciiAlphabetic(ch) {
        return None;
      }
      if IsLower(ch) {
        var j := ch as int - 'a' as int;
        counts := counts[j := counts[j] + 1];
        i := i + 1;
      } else {
        return None;
      }
    }
    assert t[..|t|] == t;
    return Some(counts);
  }

  /** The loop over the counter: Bad at the first letter never seen,
    * otherwise Perfect when no letter was seen twice, else Good. */
  method Judge(counts: seq<nat>) returns (r: PangramKind)
    ensures r == Bad <==> exists j :: 0 <= j < |counts| && counts[j] == 0
    ensures r == Perfect <==> forall j :: 0 <= j < |counts| ==> counts[j] == 1
    ensures r == Good <==> (forall j :: 0 <= j < |counts| ==> counts[j] > 0) && exists j :: 0 <= j < |counts| && counts[j] > 1
  {
    var perfect := true;
    var j := 0;
    while j < |counts|
      invariant 0 <= j <= |counts|
      invariant forall i :: 0 <= i < j ==> counts[i] > 0
      invariant perfect <==> forall i :: 0 <= i < j ==> counts[i] == 1
    {
      if counts[j] == 0 {
        return Bad;
      }
      if counts[j] > 1 {
        perfect := false;
      }
      j := j + 1;
    }
    if perfect {
      return Perfect;
    } else {
      return Good;
    }
  }

  /** `is_pangram`. */
  method IsPangram(s: string) returns (r: PangramKind)
    ensures r == Classify(s)
  {
    if !IsAscii(s) {
      return Bad;
    }
    var counts := CountLetters(Lowercase(s));
    if counts.None? {
      return Bad;
    }
    r := Judge(counts.value);
  }

  /*************************************************************************
   * What the classes mean
   *************************************************************************/

  /** The letters of `t`, in order. */
  function Letters(t: string): (r: string)
    ensures forall k :: 0 <= k < |r| ==> IsLower(r[k])
  {
    if |t| == 0 then []
    else if IsLower(t[|t| - 1]) then Letters(t[..|t| - 1]) + [t[|t| - 1]]
    else Letters(t[..|t| - 1])
  }

  /** The key string of the counter: every lowercase letter exactly once and
    * nothing else, in alphabetical order. */
  function Alphabet(): (r: string)
    ensures |r| == 26
    ensures forall j :: 0 <= j < 26 ==> r[j] == Letter(j)
    ensures forall c :: multiset(r)[c] == if IsLower(c) then 1 else 0
  {
    var r := seq(26, j requires 0 <= j < 26 => Letter(j));
    EachLetterOnce(r);
    r
  }

  /** Every lowercase letter of `t`, and nothing else, is in `Letters(t)`. */
  lemma {:induction false} LettersCount(t: string, c: char)
    ensures multiset(Letters(t))[c] == if IsLower(c) then multiset(t)[c] else 0
    decreases |t|
  {
    if |t| > 0 {
      LettersCount(t[..|t| - 1], c);
      assert t == t[..|t| - 1] + [t[|t| - 1]];
    }
  }

  /** The first `n` letters in order hold each of them once and nothing else. */
  lemma {:induction false} LetterPrefixCount(r: string, n: nat, c: char)
    requires n <= |r| <= 26 && forall j :: 0 <= j < |r| ==> r[j] == Letter(j)
    ensures multiset(r[..n])[c] == if 'a' as int <= c as int < 'a' as int + n then 1 else 0
    decreases n
  {
    if n > 0 {
      LetterPrefixCount(r, n - 1, c);
      assert r[..n] == r[..n - 1] + [Letter(n - 1)];
    }
  }

  /** All 26 letters in order hold each lowercase letter once. */
  lemma EachLetterOnce(r: string)
    requires |r| == 26 && forall j :: 0 <= j < 26 ==> r[j] == Letter(j)
    ensures forall c :: multiset(r)[c] == if IsLower(c) then 1 else 0
  {
    forall c
      ensures multiset(r)[c] == if IsLower(c) then 1 else 0
    {
      LetterPrefixCount(r, 26, c);
      assert r[..26] == r;
    }
  }

  /** A letter's count in `t` is its multiplicity among the letters of `t`. */
  lemma CountIsLetterMultiplicity(t: string, j: nat)
    requires j < 26
    ensures Count(t, j) == multiset(Letters(t))[Letter(j)]
    ensures multiset(Alphabet())[Letter(j)] == 1
  {
    LettersCount(t, Letter(j));
  }

  /** Every letter counted once is the same as: the letters are a
    * permutation of the alphabet. */
  lemma OnceEachIffAlphabet(t: string)
    ensures (forall j :: 0 <= j < 26 ==> Count(t, j) == 1) <==> multiset(Letters(t)) == multiset(Alphabet())
  {
    var M, A := multiset(Letters(t)), multiset(Alphabet());
    if forall j :: 0 <= j < 26 ==> Count(t, j) == 1 {
      forall c
        ensures M[c] == A[c]
      {
        LettersCount(t, c);
        if IsLower(c) {
          var j := c as int - 'a' as int;
          assert Letter(j) == c;
          assert Count(t, j) == 1;
        }
      }
    } else {
      var j :| 0 <= j < 26 && Count(t, j) != 1;
      CountIsLetterMultiplicity(t, j);
    }
  }

  /** Every letter counted, some more than once, is the same as: the letters
    * include the alphabet and there are more than 26 of them. */
  lemma SomeRepeatIffMoreLetters(t: string)
    ensures ((forall j :: 0 <= j < 26 ==> Count(t, j) > 0) && exists j :: 0 <= j < 26 && Count(t, j) > 1)
            <==> multiset(Alphabet()) <= multiset(Letters(t)) && |Letters(t)| > 26
  {
    var M, A := multiset(Letters(t)), multiset(Alphabet());
    assert |A| == 26;
    if forall j :: 0 <= j < 26 ==> Count(t, j) > 0 {
      forall c
        ensures A[c] <= M[c]
      {
        LettersCount(t, c);
        if IsLower(c) {
          var j := c as int - 'a' as int;
          assert Letter(j) == c;
          assert Count(t, j) > 0;
        }
      }
      assert A <= M;
      assert M == A + (M - A);
      if exists j :: 0 <= j < 26 && Count(t, j) > 1 {
        var j :| 0 <= j < 26 && Count(t, j) > 1;
        CountIsLetterMultiplicity(t, j);
        assert Letter(j) in M - A;
      } else {
        OnceEachIffAlphabet(t);
      }
    } else {
      var j :| 0 <= j < 26 && Count(t, j) == 0;
      CountIsLetterMultiplicity(t, j);
      assert !(A <= M);
    }
  }

  /** Perfect exactly when the text is ASCII, holds nothing but whitespace,
    * punctuation and letters, and its letters, ignoring case, are a
    * permutation of the alphabet. */
  lemma PerfectIffAlphabetPermutation(s: string)
    ensures Classify(s) == Perfect <==>
              IsAscii(s) && OnlyAllowed(Lowercase(s)) && multiset(Letters(Lowercase(s))) == multiset(Alphabet())
  {
    var t := Lowercase(s);
    OnceEachIffAlphabet(t);
    if forall j :: 0 <= j < 26 ==> Count(t, j) == 1 {
      assert !exists j :: 0 <= j < 26 && Count(t, j) == 0;
    }
  }

  /** Good exactly when the text is ASCII, holds nothing but whitespace,
    * punctuation and letters, and its letters, ignoring case, contain the
    * whole alphabet and more than 26 letters. */
  lemma GoodIffAlphabetAndMore(s: string)
    ensures Classify(s) == Good <==>
              && IsAscii(s)
              && OnlyAllowed(Lowercase(s))
              && multiset(Alphabet()) <= multiset(Letters(Lowercase(s)))
              && |Letters(Lowercase(s))| > 26
  {
    var t := Lowercase(s);
    SomeRepeatIffMoreLetters(t);
  }

  /** Case does not matter: a text classifies as its lowercase form. */
  lemma CaseInsensitive(s: string)
    ensures Classify(Lowercase(s)) == Classify(s)
  {
    assert Lowercase(Lowercase(s)) == Lowercase(s);
    assert IsAscii(s) <==> IsAscii(Lowercase(s));
  }

  /** The source's Bad examples: too few letters, an empty text, a lone space,
    * and a text whose only non-letter is skipped punctuation but which lacks
    * an `a`. */
  lemma BadExamples()
    ensures Classify("abc") == Bad
    ensures Classify("") == Bad
    ensures Classify(" ") == Bad
    ensures Classify("_bcdefghijklmnopqrstuvwxyz") == Bad
  {
    assert Count(Lowercase("abc"), 3) == 0;
    assert Count(Lowercase(""), 0) == 0;
    assert Count(Lowercase(" "), 0) == 0;
    assert Count(Lowercase("_bcdefghijklmnopqrstuvwxyz"), 0) == 0;
  }

  /** Lowercasing leaves text without capitals unchanged. */
  lemma LowercaseOfLower(t: string)
    requires forall k :: 0 <= k < |t| ==> IsLower(t[k])
    ensures Lowercase(t) == t
  {
  }

  lemma AlphabetLiteral()
    ensures Alphabet() == "abcdefghijklmnopqrstuvwxyz"
  {
  }

  /** The source's first Perfect example: the alphabet itself. */
  lemma AlphabetIsPerfect()
    ensures Classify("abcdefghijklmnopqrstuvwxyz") == Perfect
  {
    var s := Alphabet();
    AlphabetLiteral();
    LowercaseOfLower(s);
    assert forall j :: 0 <= j < 26 ==> Count(s, j) == 1;
  }
}
