/**
 * The spell checker: whether a word is in the word set, and the five ways of
 * generating suggestions for a word that is not. The first four techniques
 * work on their own copy of the word, change it, ask the word set, and change
 * it back; the fifth only cuts the word into two halves. Each is proved
 * against a reference list of the candidates it tries, in the order it tries
 * them.
 */
module WordChecker {

  // ---------------------------------------------------------------------------
  // Edits of a word
  // ---------------------------------------------------------------------------

  /** The k-th capital letter, 'A' for k = 0 up to 'Z' for k = 25. */
  function Letter(k: nat): (c: char)
    requires k < 26
    ensures 'A' <= c <= 'Z' && c as int - 'A' as int == k
  {
    ('A' as int + k) as char
  }

  /** The word with the characters at i and i + 1 exchanged (std::swap). */
  function Swapped(w: string, i: nat): (r: string)
    requires i + 1 < |w|
    ensures |r| == |w| && r[i] == w[i + 1] && r[i + 1] == w[i]
    ensures forall j :: 0 <= j < |w| && j != i && j != i + 1 ==> r[j] == w[j]
  {
    w[i := w[i + 1]][i + 1 := w[i]]
  }

  /** The word with the character at position i replaced by `c`. */
  function Replaced(w: string, i: nat, c: char): (r: string)
    requires i < |w|
    ensures |r| == |w| && r[i] == c
    ensures forall j :: 0 <= j < |w| && j != i ==> r[j] == w[j]
  {
    w[i := c]
  }

  /** The word with `c` inserted before position i (string::insert(i, 1, c)). */
  function Inserted(w: string, i: nat, c: char): (r: string)
    requires i <= |w|
    ensures |r| == |w| + 1 && r[i] == c
    ensures forall j :: 0 <= j < i ==> r[j] == w[j]
    ensures forall j :: i < j < |r| ==> r[j] == w[j - 1]
  {
    w[..i] + [c] + w[i..]
  }

  /** The word with the character at position i removed (string::erase(i, 1)). */
  function Erased(w: string, i: nat): (r: string)
    requires i < |w|
    ensures |r| == |w| - 1
    ensures forall j :: 0 <= j < i ==> r[j] == w[j]
    ensures forall j :: i <= j < |r| ==> r[j] == w[j + 1]
  {
    w[..i] + w[i + 1..]
  }

  // ---------------------------------------------------------------------------
  // The candidates each technique tries, in the order it tries them
  // ---------------------------------------------------------------------------

  /** Technique 1: every adjacent pair swapped, left to right. */
  function SwapCandidates(w: string): seq<string>
    requires |w| >= 1
  {
    seq(|w| - 1, i requires 0 <= i < |w| - 1 => Swapped(w, i))
  }

  /** The 26 words made by inserting 'A' .. 'Z' at gap i. */
  function LettersInserted(w: string, i: nat): seq<string>
    requires i <= |w|
  {
    seq(26, k requires 0 <= k < 26 => Inserted(w, i, Letter(k)))
  }

  /** Technique 2 over the gaps 0 .. n - 1, left to right. */
  function InsertionsUpTo(w: string, n: nat): seq<string>
    requires n <= |w| + 1
  {
    if n == 0 then [] else InsertionsUpTo(w, n - 1) + LettersInserted(w, n - 1)
  }

  /** Technique 2: at each of the |w| + 1 gaps, left to right, each letter 'A' to 'Z'. */
  function InsertCandidates(w: string): seq<string>
  {
    InsertionsUpTo(w, |w| + 1)
  }

  /** Technique 3: every character deleted in turn, left to right. */
  function DeleteCandidates(w: string): seq<string>
  {
    seq(|w|, i requires 0 <= i < |w| => Erased(w, i))
  }

  /** The 26 words made by replacing the character at position i with 'A' .. 'Z'. */
  function LettersReplaced(w: string, i: nat): seq<string>
    requires i < |w|
  {
    seq(26, k requires 0 <= k < 26 => Replaced(w, i, Letter(k)))
  }

  /** Technique 4 over the positions 0 .. n - 1, left to right. */
  function ReplacementsUpTo(w: string, n: nat): seq<string>
    requires n <= |w|
  {
    if n == 0 then [] else ReplacementsUpTo(w, n - 1) + LettersReplaced(w, n - 1)
  }

  /** Technique 4: at each position, left to right, the character replaced by each letter 'A' to 'Z'. */
  function ReplaceCandidates(w: string): seq<string>
  {
    ReplacementsUpTo(w, |w|)
  }

  /** The candidates that are words, in order, repeats kept. */
  function Filter(words: set<string>, candidates: seq<string>): seq<string>
  {
    if candidates == [] then []
    else
      var n := |candidates| - 1;
      Filter(words, candidates[..n]) + (if candidates[n] in words then [candidates[n]] else [])
  }

  /** Technique 5 over the split points 1 .. n - 1: "left right" whenever both halves are words. */
  function Splits(words: set<string>, w: string, n: nat): seq<string>
    requires n <= |w|
  {
    if n <= 1 then []
    else
      var i := n - 1;
      Splits(words, w, i) + (if w[..i] in words && w[i..] in words then [w[..i] + " " + w[i..]] else [])
  }

  /** Everything findSuggestions returns, technique by technique. */
  function Suggestions(words: set<string>, w: string): seq<string>
    requires |w| >= 1
  {
    Filter(words, SwapCandidates(w)) +
    Filter(words, InsertCandidates(w)) +
    Filter(words, DeleteCandidates(w)) +
    Filter(words, ReplaceCandidates(w)) +
    Splits(words, w, |w|)
  }

  // ---------------------------------------------------------------------------
  // The checker's operations
  // ---------------------------------------------------------------------------

  /** wordExists: asks the word set. */
  function WordExists(words: set<string>, word: string): bool
  {
    word in words
  }

  /**
   * findSuggestions: the five techniques in order, each appending to the same
   * list. The first technique's bound, `word.size() - 1`, is unsigned, so an
   * empty word would be indexed past its end: the word must not be empty.
   */
  method FindSuggestions(words: set<string>, word: string) returns (suggestions: seq<string>)
    requires |word| >= 1
    ensures suggestions == Suggestions(words, word)
  {
    suggestions := [];
    suggestions := Technique1(words, suggestions, word);
    suggestions := Technique2(words, suggestions, word);
    suggestions := Technique3(words, suggestions, word);
    suggestions := Technique4(words, suggestions, word);
    suggestions := Technique5(words, suggestions, word);
  }

  /** findSuggestionsTechnique1: swap each adjacent pair, keep the words, swap back. */
  method Technique1(words: set<string>, suggestions: seq<string>, word: string) returns (out: seq<string>)
    requires |word| >= 1
    ensures out == suggestions + Filter(words, SwapCandidates(word))
  {
    out := suggestions;
    var w := word;
    var i := 0;
    while i < |w| - 1
      invariant 0 <= i <= |word| - 1 && w == word
      invariant out == suggestions + Filter(words, SwapCandidates(word)[..i])
    {
      w := Swapped(w, i);
      if WordExists(words, w) {
        out := out + [w];
      }
      SwappedTwice(word, i);
      w := Swapped(w, i);
      assert SwapCandidates(word)[..i + 1][..i] == SwapCandidates(word)[..i];
      i := i + 1;
    }
    assert SwapCandidates(word)[..i] == SwapCandidates(word);
  }

  /** findSuggestionsTechnique2: at each gap insert each letter, keep the words, erase it again. */
  method Technique2(words: set<string>, suggestions: seq<string>, word: string) returns (out: seq<string>)
    ensures out == suggestions + Filter(words, InsertCandidates(word))
  {
    out := suggestions;
    var w := word;
    var i := 0;
    while i < |w| + 1
      invariant 0 <= i <= |word| + 1 && w == word
      invariant out == suggestions + Filter(words, InsertionsUpTo(word, i))
    {
      out := InsertEachLetter(words, out, w, i);
      FilterAppend(words, InsertionsUpTo(word, i), LettersInserted(word, i));
      assert out == suggestions + Filter(words, InsertionsUpTo(word, i) + LettersInserted(word, i));
      i := i + 1;
    }
  }

  /**
   * The inner loop of techniques 2 and 4: for c from 'A' to 'Z', insert c at
   * gap i, keep the result if it is a word, and erase c again.
   */
  method InsertEachLetter(words: set<string>, suggestions: seq<string>, word: string, i: nat) returns (out: seq<string>)
    requires i <= |word|
    ensures out == suggestions + Filter(words, LettersInserted(word, i))
  {
    ghost var letters := LettersInserted(word, i);
    out := suggestions;
    var w := word;
    var c := 'A';
    while c <= 'Z'
      invariant 'A' <= c <= '[' && w == word
      invariant out == suggestions + Filter(words, letters[..c as int - 'A' as int])
    {
      ghost var k := c as int - 'A' as int;
      assert letters[k] == Inserted(word, i, c);
      w := Inserted(w, i, c);
      if WordExists(words, w) {
        out := out + [w];
      }
      FilterStep(words, letters, k);
      ErasedInserted(word, i, c);
      w := Erased(w, i);
      c := (c as int + 1) as char;
    }
    assert letters[..26] == letters;
  }

  /** findSuggestionsTechnique3: delete each character, keep the words, insert it back. */
  method Technique3(words: set<string>, suggestions: seq<string>, word: string) returns (out: seq<string>)
    ensures out == suggestions + Filter(words, DeleteCandidates(word))
  {
    out := suggestions;
    var w := word;
    var i := 0;
    while i < |w|
      invariant 0 <= i <= |word| && w == word
      invariant out == suggestions + Filter(words, DeleteCandidates(word)[..i])
    {
      var c := w[i];
      w := Erased(w, i);
      if WordExists(words, w) {
        out := out + [w];
      }
      InsertedErased(word, i);
      w := Inserted(w, i, c);
      assert DeleteCandidates(word)[..i + 1][..i] == DeleteCandidates(word)[..i];
      i := i + 1;
    }
    assert DeleteCandidates(word)[..i] == DeleteCandidates(word);
  }

  /**
   * findSuggestionsTechnique4: at each position delete the character, then
   * insert and erase each letter in its place, keeping the words; finally
   * insert the saved character back.
   */
  method Technique4(words: set<string>, suggestions: seq<string>, word: string) returns (out: seq<string>)
    ensures out == suggestions + Filter(words, ReplaceCandidates(word))
  {
    out := suggestions;
    var w := word;
    var i := 0;
    while i < |w|
      invariant 0 <= i <= |word| && w == word
      invariant out == suggestions + Filter(words, ReplacementsUpTo(word, i))
    {
      var saved := w[i];
      w := Erased(w, i);
      out := InsertEachLetter(words, out, w, i);
      ReplacedLetters(word, i);
      FilterAppend(words, ReplacementsUpTo(word, i), LettersReplaced(word, i));
      assert out == suggestions + Filter(words, ReplacementsUpTo(word, i) + LettersReplaced(word, i));
      InsertedErased(word, i);
      w := Inserted(w, i, saved);
      i := i + 1;
    }
  }

  /** findSuggestionsTechnique5: at each inner split point, "left right" when both halves are words. */
  method Technique5(words: set<string>, suggestions: seq<string>, word: string) returns (out: seq<string>)
    ensures out == suggestions + Splits(words, word, |word|)
  {
    out := suggestions;
    var i := 1;
    while i < |word|
      invariant 1 <= i && (|word| >= 1 ==> i <= |word|)
      invariant out == suggestions + Splits(words, word, if i <= |word| then i else |word|)
    {
      var left := word[..i];
      var right := word[i..];
      if WordExists(words, left) && WordExists(words, right) {
        out := out + [left + " " + right];
      }
      i := i + 1;
    }
  }

  // ---------------------------------------------------------------------------
  // Lemmas: each edit is undone by the step that follows it
  // ---------------------------------------------------------------------------

  /** Swapping the same pair twice restores the word. */
  lemma SwappedTwice(w: string, i: nat)
    requires i + 1 < |w|
    ensures Swapped(Swapped(w, i), i) == w
  {
  }

  /** Erasing an inserted character restores the word. */
  lemma ErasedInserted(w: string, i: nat, c: char)
    requires i <= |w|
    ensures Erased(Inserted(w, i, c), i) == w
  {
  }

  /** Inserting the erased character back restores the word. */
  lemma InsertedErased(w: string, i: nat)
    requires i < |w|
    ensures Inserted(Erased(w, i), i, w[i]) == w
  {
  }

  /** Erasing a character and inserting another in its place replaces it. */
  lemma ReplacedIsUpdate(w: string, i: nat, c: char)
    requires i < |w|
    ensures Inserted(Erased(w, i), i, c) == Replaced(w, i, c)
  {
  }

  /** Inserting each letter where a character was erased gives the 26 replacements of that character. */
  lemma ReplacedLetters(w: string, i: nat)
    requires i < |w|
    ensures LettersInserted(Erased(w, i), i) == LettersReplaced(w, i)
  {
    forall k | 0 <= k < 26
      ensures LettersInserted(Erased(w, i), i)[k] == LettersReplaced(w, i)[k]
    {
      ReplacedIsUpdate(w, i, Letter(k));
    }
  }

  /** Filtering distributes over concatenation. */
  lemma {:induction false} FilterAppend(words: set<string>, a: seq<string>, b: seq<string>)
    ensures Filter(words, a + b) == Filter(words, a) + Filter(words, b)
  {
    if b == [] {
      assert a + b == a;
    } else {
      var n := |b| - 1;
      assert (a + b)[..|a + b| - 1] == a + b[..n];
      FilterAppend(words, a, b[..n]);
    }
  }

  /** Keeping one more candidate appends it to the kept list when it is a word. */
  lemma FilterStep(words: set<string>, candidates: seq<string>, k: nat)
    requires k < |candidates|
    ensures Filter(words, candidates[..k + 1]) ==
            Filter(words, candidates[..k]) + (if candidates[k] in words then [candidates[k]] else [])
  {
    assert candidates[..k + 1][..k] == candidates[..k];
  }


  // ---------------------------------------------------------------------------
  // What the suggestions are
  // ---------------------------------------------------------------------------

  /** `s` is `w` with one adjacent pair swapped. */
  ghost predicate SwapOf(s: string, w: string)
  {
    exists i: nat :: i + 1 < |w| && s == Swapped(w, i)
  }

  /** `s` is `w` with one capital letter inserted somewhere. */
  ghost predicate InsertionOf(s: string, w: string)
  {
    exists i: nat, c: char :: i <= |w| && 'A' <= c <= 'Z' && s == Inserted(w, i, c)
  }

  /** `s` is `w` with one character deleted. */
  ghost predicate DeletionOf(s: string, w: string)
  {
    exists i: nat :: i < |w| && s == Erased(w, i)
  }

  /** `s` is `w` with one character replaced by a capital letter, possibly by itself. */
  ghost predicate ReplacementOf(s: string, w: string)
  {
    exists i: nat, c: char :: i < |w| && 'A' <= c <= 'Z' && s == Replaced(w, i, c)
  }

  /** `s` is `w` split by a space into two non-empty halves that are both words. */
  ghost predicate SplitOf(words: set<string>, s: string, w: string)
  {
    exists i: nat :: 1 <= i < |w| && w[..i] in words && w[i..] in words && s == w[..i] + " " + w[i..]
  }

  /** The kept candidates are exactly the candidates that are words. */
  lemma {:induction false} FilterMembers(words: set<string>, candidates: seq<string>, s: string)
    ensures s in Filter(words, candidates) <==> s in candidates && s in words
  {
    if candidates != [] {
      var n := |candidates| - 1;
      FilterMembers(words, candidates[..n], s);
      assert candidates == candidates[..n] + [candidates[n]];
    }
  }

  /** A kept word is kept as often as it is tried. */
  lemma {:induction false} FilterCount(words: set<string>, candidates: seq<string>, s: string)
    requires s in words
    ensures multiset(Filter(words, candidates))[s] == multiset(candidates)[s]
  {
    if candidates != [] {
      var n := |candidates| - 1;
      FilterCount(words, candidates[..n], s);
      assert candidates == candidates[..n] + [candidates[n]];
    }
  }

  lemma {:induction false} FilterLength(words: set<string>, candidates: seq<string>)
    ensures |Filter(words, candidates)| <= |candidates|
  {
    if candidates != [] {
      FilterLength(words, candidates[..|candidates| - 1]);
    }
  }

  lemma LetterOf(c: char)
    requires 'A' <= c <= 'Z'
    ensures Letter(c as int - 'A' as int) == c
  {
  }

  lemma LettersInsertedMembers(w: string, g: nat, s: string)
    requires g <= |w|
    ensures s in LettersInserted(w, g) <==> exists c: char :: 'A' <= c <= 'Z' && s == Inserted(w, g, c)
  {
    var letters := LettersInserted(w, g);
    if s in letters {
      var k :| 0 <= k < 26 && letters[k] == s;
      assert s == Inserted(w, g, Letter(k));
    }
    if exists c: char :: 'A' <= c <= 'Z' && s == Inserted(w, g, c) {
      var c: char :| 'A' <= c <= 'Z' && s == Inserted(w, g, c);
      LetterOf(c);
      assert letters[c as int - 'A' as int] == s;
    }
  }

  lemma LettersReplacedMembers(w: string, g: nat, s: string)
    requires g < |w|
    ensures s in LettersReplaced(w, g) <==> exists c: char :: 'A' <= c <= 'Z' && s == Replaced(w, g, c)
  {
    var letters := LettersReplaced(w, g);
    if s in letters {
      var k :| 0 <= k < 26 && letters[k] == s;
      assert s == Replaced(w, g, Letter(k));
    }
    if exists c: char :: 'A' <= c <= 'Z' && s == Replaced(w, g, c) {
      var c: char :| 'A' <= c <= 'Z' && s == Replaced(w, g, c);
      LetterOf(c);
      assert letters[c as int - 'A' as int] == s;
    }
  }

  lemma {:induction false} InsertionsUpToMembers(w: string, n: nat, s: string)
    requires n <= |w| + 1
    ensures s in InsertionsUpTo(w, n) <==>
              exists i: nat, c: char :: i < n && 'A' <= c <= 'Z' && s == Inserted(w, i, c)
  {
    if n > 0 {
      var g := n - 1;
      InsertionsUpToMembers(w, g, s);
      LettersInsertedMembers(w, g, s);
      assert InsertionsUpTo(w, n) == InsertionsUpTo(w, g) + LettersInserted(w, g);
    }
  }

  lemma {:induction false} ReplacementsUpToMembers(w: string, n: nat, s: string)
    requires n <= |w|
    ensures s in ReplacementsUpTo(w, n) <==>
              exists i: nat, c: char :: i < n && 'A' <= c <= 'Z' && s == Replaced(w, i, c)
  {
    if n > 0 {
      var g := n - 1;
      ReplacementsUpToMembers(w, g, s);
      LettersReplacedMembers(w, g, s);
      assert ReplacementsUpTo(w, n) == ReplacementsUpTo(w, g) + LettersReplaced(w, g);
    }
  }

  lemma {:induction false} SplitsMembers(words: set<string>, w: string, n: nat, s: string)
    requires n <= |w|
    ensures s in Splits(words, w, n) <==>
              exists i: nat :: 1 <= i < n && w[..i] in words && w[i..] in words && s == w[..i] + " " + w[i..]
  {
    if n > 1 {
      SplitsMembers(words, w, n - 1, s);
    }
  }

  /** Technique 1 suggests exactly the words one adjacent swap away. */
  lemma SwapSuggestions(words: set<string>, word: string, s: string)
    requires |word| >= 1
    ensures s in Filter(words, SwapCandidates(word)) <==> s in words && SwapOf(s, word)
  {
    FilterMembers(words, SwapCandidates(word), s);
    if SwapOf(s, word) {
      var i: nat :| i + 1 < |word| && s == Swapped(word, i);
      assert SwapCandidates(word)[i] == s;
    }
  }

  /** Technique 2 suggests exactly the words one inserted capital letter away. */
  lemma InsertSuggestions(words: set<string>, word: string, s: string)
    ensures s in Filter(words, InsertCandidates(word)) <==> s in words && InsertionOf(s, word)
  {
    FilterMembers(words, InsertCandidates(word), s);
    InsertionsUpToMembers(word, |word| + 1, s);
  }

  /** Technique 3 suggests exactly the words one deletion away. */
  lemma DeleteSuggestions(words: set<string>, word: string, s: string)
    ensures s in Filter(words, DeleteCandidates(word)) <==> s in words && DeletionOf(s, word)
  {
    FilterMembers(words, DeleteCandidates(word), s);
    if DeletionOf(s, word) {
      var i: nat :| i < |word| && s == Erased(word, i);
      assert DeleteCandidates(word)[i] == s;
    }
  }

  /** Technique 4 suggests exactly the words one replacement by a capital letter away. */
  lemma ReplaceSuggestions(words: set<string>, word: string, s: string)
    ensures s in Filter(words, ReplaceCandidates(word)) <==> s in words && ReplacementOf(s, word)
  {
    FilterMembers(words, ReplaceCandidates(word), s);
    ReplacementsUpToMembers(word, |word|, s);
  }

  /** Technique 5 suggests exactly the splits into two words. */
  lemma SplitSuggestions(words: set<string>, word: string, s: string)
    ensures s in Splits(words, word, |word|) <==> SplitOf(words, s, word)
  {
    SplitsMembers(words, word, |word|, s);
  }

  /**
   * findSuggestions returns exactly the words one swap, insertion, deletion or
   * replacement away from `word`, and the two-word splits of `word` whose
   * halves are both words.
   */
  lemma SuggestionsMembers(words: set<string>, word: string, s: string)
    requires |word| >= 1
    ensures s in Suggestions(words, word) <==>
              (s in words && (SwapOf(s, word) || InsertionOf(s, word) || DeletionOf(s, word) || ReplacementOf(s, word)))
              || SplitOf(words, s, word)
  {
    SwapSuggestions(words, word, s);
    InsertSuggestions(words, word, s);
    DeleteSuggestions(words, word, s);
    ReplaceSuggestions(words, word, s);
    SplitSuggestions(words, word, s);
  }

  lemma {:induction false} InsertionsUpToLength(w: string, n: nat)
    requires n <= |w| + 1
    ensures |InsertionsUpTo(w, n)| == 26 * n
  {
    if n > 0 {
      InsertionsUpToLength(w, n - 1);
    }
  }

  lemma {:induction false} ReplacementsUpToLength(w: string, n: nat)
    requires n <= |w|
    ensures |ReplacementsUpTo(w, n)| == 26 * n
  {
    if n > 0 {
      ReplacementsUpToLength(w, n - 1);
    }
  }

  lemma {:induction false} SplitsLength(words: set<string>, w: string, n: nat)
    requires n <= |w|
    ensures |Splits(words, w, n)| <= if n == 0 then 0 else n - 1
  {
    if n > 1 {
      SplitsLength(words, w, n - 1);
    }
  }

  /** At most (n - 1) + 26 (n + 1) + n + 26 n + (n - 1) = 55 n + 24 suggestions for a word of length n. */
  lemma SuggestionsLength(words: set<string>, word: string)
    requires |word| >= 1
    ensures |Suggestions(words, word)| <= 55 * |word| + 24
  {
    var n := |word|;
    var f1, f2 := Filter(words, SwapCandidates(word)), Filter(words, InsertCandidates(word));
    var f3, f4 := Filter(words, DeleteCandidates(word)), Filter(words, ReplaceCandidates(word));
    var f5 := Splits(words, word, n);
    FilterLength(words, SwapCandidates(word));
    FilterLength(words, InsertCandidates(word));
    FilterLength(words, DeleteCandidates(word));
    FilterLength(words, ReplaceCandidates(word));
    InsertionsUpToLength(word, n + 1);
    ReplacementsUpToLength(word, n);
    SplitsLength(words, word, n);
    assert |f1| <= n - 1 && |f2| <= 26 * (n + 1) && |f3| <= n && |f4| <= 26 * n && |f5| <= n - 1;
    assert Suggestions(words, word) == f1 + f2 + f3 + f4 + f5;
  }

  /** Technique 4 also tries each character replaced by itself, so a word spelled in capitals suggests itself. */
  lemma ReplacementsIncludeWord(words: set<string>, word: string)
    requires |word| >= 1 && word in words && 'A' <= word[0] <= 'Z'
    ensures word in Filter(words, ReplaceCandidates(word))
  {
    ReplacementsUpToMembers(word, |word|, word);
    assert word == Replaced(word, 0, word[0]);
    FilterMembers(words, ReplaceCandidates(word), word);
  }

  /** The same suggestion can be listed twice: "AA" comes from inserting 'A' before and after the 'A' of "A". */
  lemma RepeatedSuggestion()
    ensures multiset(Filter({"AA"}, InsertCandidates("A")))["AA"] >= 2
  {
    var first, second := LettersInserted("A", 0), LettersInserted("A", 1);
    assert InsertionsUpTo("A", 1) == first;
    assert InsertCandidates("A") == first + second;
    assert first[0] == "AA" && second[0] == "AA";
    assert multiset(first)["AA"] >= 1 && multiset(second)["AA"] >= 1;
    FilterCount({"AA"}, InsertCandidates("A"), "AA");
  }
}
