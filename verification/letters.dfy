/**
 Letter bookkeeping behind the "can this word be spelled from the root word?"
 check of the word game: occurrence counts, first-occurrence search and removal,
 and the remove-first-occurrence test itself, in two shapes (a recursive
 function and the loop the game runs), both proved equal to the sub-multiset
 definition.
 */
module Letters {
  import opened Wrappers

  /** Number of occurrences of `c` in `s`. */
  function Count(s: string, c: char): (n: nat)
    ensures n <= |s|
    ensures c !in s ==> n == 0
  {
    if |s| == 0 then 0
    else (if s[0] == c then 1 else 0) + Count(s[1..], c)
  }

  /** The count is the multiplicity of `c` in the multiset of `s`. */
  lemma {:induction false} CountIsMultiplicity(s: string, c: char)
    ensures Count(s, c) == multiset(s)[c]
  {
    if |s| > 0 {
      CountIsMultiplicity(s[1..], c);
      assert s == [s[0]] + s[1..];
    }
  }

  /** Every letter occurs in `word` no more often than in `root`. */
  ghost predicate FitsIn(word: string, root: string)
  {
    forall c :: Count(word, c) <= Count(root, c)
  }

  /** The count-based definition and the multiset inclusion agree. */
  lemma FitsInIffSubMultiset(word: string, root: string)
    ensures FitsIn(word, root) <==> multiset(word) <= multiset(root)
  {
    forall c
      ensures Count(word, c) == multiset(word)[c] && Count(root, c) == multiset(root)[c]
    {
      CountIsMultiplicity(word, c);
      CountIsMultiplicity(root, c);
    }
  }

  /** Position of the first occurrence of `c` in `s`, like `firstIndex(of:)`. */
  function IndexOf(s: string, c: char): (r: Option<nat>)
    ensures r.None? <==> c !in s
    ensures r.Some? ==> r.value < |s| && s[r.value] == c && c !in s[..r.value]
  {
    if |s| == 0 then None
    else if s[0] == c then Some(0)
    else match IndexOf(s[1..], c)
      case None => None
      case Some(i) =>
        assert s[..i + 1] == [s[0]] + s[1..][..i];
        Some(i + 1)
  }

  /** `s` without the character at position `i`, like `remove(at:)`. */
  function RemoveAt(s: string, i: nat): (r: string)
    requires i < |s|
    ensures |r| == |s| - 1
    ensures multiset(r) + multiset{s[i]} == multiset(s)
  {
    assert s == s[..i] + [s[i]] + s[i + 1..];
    s[..i] + s[i + 1..]
  }

  /**
   The game's spelling test: walk the candidate letter by letter and strike the
   first matching letter out of a copy of the root word, failing as soon as a
   letter is missing. The root word itself is a value and never changes.
   */
  function IsPossible(word: string, root: string): (ok: bool)
    ensures ok <==> multiset(word) <= multiset(root)
    ensures word == [] ==> ok
    ensures word == root ==> ok
    decreases |word|
  {
    if |word| == 0 then true
    else match IndexOf(root, word[0])
      case None =>
        assert word[0] in multiset(word);
        false
      case Some(i) =>
        assert word == [word[0]] + word[1..];
        SubMultisetCancel(multiset(word[1..]), multiset(RemoveAt(root, i)), multiset{word[0]});
        IsPossible(word[1..], RemoveAt(root, i))
  }

  /** Adding the same letters to both sides does not change inclusion. */
  lemma SubMultisetCancel(a: multiset<char>, b: multiset<char>, m: multiset<char>)
    ensures a <= b <==> a + m <= b + m
  {
    if a + m <= b + m {
      forall c ensures a[c] <= b[c] {
        assert (a + m)[c] <= (b + m)[c];
      }
    }
  }

  /** The remove-first-occurrence test agrees with the per-letter count definition. */
  lemma IsPossibleIffFitsIn(word: string, root: string)
    ensures IsPossible(word, root) <==> FitsIn(word, root)
  {
    FitsInIffSubMultiset(word, root);
  }

  /** A candidate containing a letter the root word lacks is never possible. */
  lemma MissingLetterIsImpossible(word: string, root: string, k: nat)
    requires k < |word| && word[k] !in root
    ensures !IsPossible(word, root)
  {
    assert word[k] in multiset(word);
  }

  /**
   The loop exactly as the game runs it: a mutable copy of the root word,
   one pass over the candidate, early exit on the first missing letter.
   */
  method IsPossibleLoop(word: string, rootWord: string) returns (ok: bool)
    ensures ok <==> multiset(word) <= multiset(rootWord)
  {
    var clone := rootWord;
    for k := 0 to |word|
      invariant multiset(word[..k]) + multiset(clone) == multiset(rootWord)
    {
      var letter := word[k];
      match IndexOf(clone, letter)
      case Some(position) =>
        clone := RemoveAt(clone, position);
        assert word[..k + 1] == word[..k] + [letter];
      case None =>
        assert word == word[..k] + [letter] + word[k + 1..];
        assert multiset(word)[letter] > multiset(rootWord)[letter];
        return false;
    }
    assert word[..|word|] == word;
    return true;
  }
}
