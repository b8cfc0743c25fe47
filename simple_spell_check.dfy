/** `src/utils/simpleSpellCheck.ts`: a word is normalised by dropping every
    character other than an ASCII letter or an apostrophe and lower-casing
    the rest, then looked up in an English word set. The word set and the
    nearest-word search of the `didyoumean` package are parameters. */
module SimpleSpellCheck {
  import opened Wrappers

  predicate IsAsciiUpper(c: char) { 'A' <= c <= 'Z' }

  predicate IsAsciiLower(c: char) { 'a' <= c <= 'z' }

  /** The characters `/[^a-zA-Z']/g` leaves in place. */
  predicate Kept(c: char) {
    IsAsciiUpper(c) || IsAsciiLower(c) || c == '\''
  }

  /** `toLowerCase` on the characters that survive the filter. */
  function Lower(c: char): (r: char)
    requires Kept(c)
    ensures IsAsciiLower(r) || r == '\''
    ensures IsAsciiLower(c) || c == '\'' ==> r == c
    ensures IsAsciiUpper(c) ==> r as int == c as int + 32
  {
    if IsAsciiUpper(c) then (c as int - 'A' as int + 'a' as int) as char else c
  }

  /** `word.replace(/[^a-zA-Z']/g, '').toLowerCase()` */
  function Clean(word: string): (r: string)
    ensures |r| <= |word|
    ensures forall i | 0 <= i < |r| :: IsAsciiLower(r[i]) || r[i] == '\''
  {
    if word == [] then []
    else (if Kept(word[0]) then [Lower(word[0])] else []) + Clean(word[1..])
  }

  /** `isWordCorrect(word)`: a missing or empty word, a word with no letter
      or apostrophe, and a word whose normal form is in the dictionary are
      correct. */
  predicate IsWordCorrect(word: Option<string>, dictionary: set<string>) {
    match word
    case None => true
    case Some(w) => w == "" || Clean(w) in dictionary || Clean(w) == ""
  }

  /** `getSuggestions(word, max)`: the single nearest dictionary word to the
      normal form, when the search finds a non-empty one. `max` is unused by
      the source and is not a parameter here. */
  function GetSuggestions(word: Option<string>, nearest: string -> Option<string>): (r: seq<string>)
    ensures |r| <= 1
    ensures r != [] <==>
      word.Some? && word.value != "" && nearest(Clean(word.value)).Some? && nearest(Clean(word.value)).value != ""
    ensures r != [] ==> r[0] == nearest(Clean(word.value)).value
  {
    if word.None? || word.value == "" then []
    else
      var suggestion := nearest(Clean(word.value));
      if suggestion.Some? && suggestion.value != "" then [suggestion.value] else []
  }

  // ---------------------------------------------------------------------------
  // Lemmas

  /** Normalising distributes over concatenation. */
  lemma {:induction false} CleanAppend(a: string, b: string)
    ensures Clean(a + b) == Clean(a) + Clean(b)
    decreases |a|
  {
    if a != [] {
      assert (a + b)[0] == a[0];
      assert (a + b)[1..] == a[1..] + b;
      CleanAppend(a[1..], b);
    } else {
      assert a + b == b;
    }
  }

  /** One character normalises to itself lower-cased when the filter keeps
      it, and to nothing otherwise. With `CleanAppend` this fixes the normal
      form of every word: each kept character, in order, lower-cased. */
  lemma CleanChar(c: char)
    ensures Clean([c]) == (if Kept(c) then [Lower(c)] else [])
  {
    assert [c][1..] == [];
  }

  /** A normal form is its own normal form. */
  lemma {:induction false} CleanIdempotent(word: string)
    ensures Clean(Clean(word)) == Clean(word)
    decreases |word|
  {
    if word != [] {
      var head := if Kept(word[0]) then [Lower(word[0])] else [];
      CleanIdempotent(word[1..]);
      CleanAppend(head, Clean(word[1..]));
      if Kept(word[0]) {
        assert Clean(head) == head;
      }
    }
  }

  /** Case and punctuation never change the verdict: a word is judged exactly
      as its normal form is. */
  lemma VerdictIgnoresCaseAndPunctuation(word: string, dictionary: set<string>)
    ensures IsWordCorrect(Some(word), dictionary) == IsWordCorrect(Some(Clean(word)), dictionary)
  {
    CleanIdempotent(word);
  }

  /** A word made only of digits and punctuation is never flagged. */
  lemma NoLettersIsCorrect(word: string, dictionary: set<string>)
    requires forall i | 0 <= i < |word| :: !Kept(word[i])
    ensures IsWordCorrect(Some(word), dictionary)
  {
    NoKeptCleansEmpty(word);
  }

  lemma {:induction false} NoKeptCleansEmpty(word: string)
    requires forall i | 0 <= i < |word| :: !Kept(word[i])
    ensures Clean(word) == ""
    decreases |word|
  {
    if word != [] {
      NoKeptCleansEmpty(word[1..]);
    }
  }

  /** "Hello," is correct against a dictionary holding "hello"; "Helo" is not. */
  lemma HelloExample()
    ensures IsWordCorrect(Some("Hello,"), {"hello"})
    ensures !IsWordCorrect(Some("Helo"), {"hello"})
  {
    assert Clean("Hello,") == "hello";
    assert Clean("Helo") == "helo";
  }

  /** Case does not matter: "HELLO" and "hello" share a normal form and so
      get the same verdict against any dictionary. */
  lemma CaseExample(dictionary: set<string>)
    ensures Clean("HELLO") == Clean("hello") == "hello"
    ensures IsWordCorrect(Some("HELLO"), dictionary) == IsWordCorrect(Some("hello"), dictionary)
  {
    assert Clean("HELLO") == "hello";
    assert Clean("hello") == "hello";
  }
}
