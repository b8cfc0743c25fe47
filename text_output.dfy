/** `src/components/TextOutput.tsx`: the editable word list shown after
    extraction. Each word can be clicked, edited in place or replaced by a
    spelling suggestion, and the parent receives the words joined by single
    spaces as the corrected text. */
module TextOutput {
  import opened Wrappers
  import opened Strings
  import opened OcrService
  import opened SimpleSpellCheck

  /** `words && Array.isArray(words) && words.length > 0 && words[0]?.text !== undefined` */
  predicate HasUsableWords(words: Option<seq<OcrWord>>) {
    words.Some? && |words.value| > 0
  }

  /** `words.map(w => w.text)` */
  function WordTexts(words: seq<OcrWord>): (r: seq<string>)
    ensures |r| == |words|
    ensures forall i | 0 <= i < |words| :: r[i] == words[i].text
  {
    seq(|words|, i requires 0 <= i < |words| => words[i].text)
  }

  /** The initial word list: the OCR words' texts when there are any, the
      whitespace split of the text otherwise. */
  function InitialWords(words: Option<seq<OcrWord>>, extractedText: string): seq<string> {
    if HasUsableWords(words) then WordTexts(words.value) else SplitWs(extractedText)
  }

  /** `editedWords.join(' ')`, what the parent receives. */
  function JoinWords(editedWords: seq<string>): string {
    JoinWith(editedWords, " ")
  }

  /** The displayed word count: the non-empty pieces of a whitespace split. */
  function WordCount(text: string): nat {
    |Compact(SplitWs(text))|
  }

  predicate NotWs(c: char) { !IsWs(c) }

  /** An independent count of the maximal runs of non-white-space characters. */
  function RunCount(s: string): nat
    decreases |s|
  {
    if s == [] then 0
    else if IsWs(s[0]) then RunCount(DropRun(s, IsWs))
    else 1 + RunCount(DropRun(s, NotWs))
  }

  /** The state of the component that its handlers update. */
  class TextOutputState {
    var editedWords: seq<string>
    var editingIdx: Option<nat>
    var showSuggestionsIdx: Option<nat>
    var suggestions: seq<string>
    var aiSuggestion: Option<string>

    /** Suggestions are listed only for a word whose suggestions are open,
        and there is never more than one. */
    ghost predicate Valid()
      reads this
    {
      && (suggestions != [] ==> showSuggestionsIdx.Some?)
      && |suggestions| <= 1
    }

    constructor (extractedText: string, words: Option<seq<OcrWord>>)
      ensures Valid()
      ensures editedWords == InitialWords(words, extractedText)
      ensures editingIdx.None? && showSuggestionsIdx.None? && suggestions == [] && aiSuggestion.None?
    {
      editedWords := InitialWords(words, extractedText);
      editingIdx := None;
      showSuggestionsIdx := None;
      suggestions := [];
      aiSuggestion := None;
    }

    /** `editedWords[idx]`, `undefined` past the end. */
    function WordAt(idx: nat): (w: Option<string>)
      reads this
      ensures w.Some? <==> idx < |editedWords|
      ensures w.Some? ==> w.value == editedWords[idx]
    {
      if idx < |editedWords| then Some(editedWords[idx]) else None
    }

    /** The corrected text handed to the parent. */
    function CorrectedText(): string
      reads this
    {
      JoinWords(editedWords)
    }

    /** The effect on `[words, extractedText]`: take the OCR words' texts,
        else split a non-empty text, else keep the list. */
    method Resync(extractedText: string, words: Option<seq<OcrWord>>)
      requires Valid()
      modifies this
      ensures Valid()
      ensures HasUsableWords(words) ==> editedWords == WordTexts(words.value)
      ensures !HasUsableWords(words) && extractedText != "" ==> editedWords == SplitWs(extractedText)
      ensures !HasUsableWords(words) && extractedText == "" ==> editedWords == old(editedWords)
      ensures editingIdx == old(editingIdx) && showSuggestionsIdx == old(showSuggestionsIdx)
      ensures suggestions == old(suggestions) && aiSuggestion == old(aiSuggestion)
    {
      if HasUsableWords(words) {
        editedWords := WordTexts(words.value);
      } else if extractedText != "" {
        editedWords := SplitWs(extractedText);
      }
    }

    /** `handleFlaggedWordClick(word, idx)`: start editing the word and open
        the suggestions only when it is misspelled. */
    method HandleFlaggedWordClick(idx: nat, dictionary: set<string>, nearest: string -> Option<string>)
      requires Valid()
      modifies this
      ensures Valid()
      ensures editingIdx == Some(idx) && aiSuggestion.None?
      ensures !IsWordCorrect(old(WordAt(idx)), dictionary) ==>
        showSuggestionsIdx == Some(idx) && suggestions == GetSuggestions(old(WordAt(idx)), nearest)
      ensures IsWordCorrect(old(WordAt(idx)), dictionary) ==> showSuggestionsIdx.None? && suggestions == []
      ensures editedWords == old(editedWords)
    {
      editingIdx := Some(idx);
      aiSuggestion := None;
      var word := WordAt(idx);
      if !IsWordCorrect(word, dictionary) {
        showSuggestionsIdx := Some(idx);
        suggestions := GetSuggestions(word, nearest);
      } else {
        showSuggestionsIdx := None;
        suggestions := [];
      }
    }

    /** `handleWordEditChange(e, idx)`: only word `idx` changes. An index
        past the end grows the list, the gap read as empty words. */
    method HandleWordEditChange(idx: nat, value: string)
      requires Valid()
      modifies this
      ensures Valid()
      ensures idx < old(|editedWords|) ==> editedWords == old(editedWords)[idx := value]
      ensures idx >= old(|editedWords|) ==>
        editedWords == old(editedWords) + seq(idx - old(|editedWords|), _ => "") + [value]
      ensures editingIdx == old(editingIdx) && showSuggestionsIdx == old(showSuggestionsIdx)
      ensures suggestions == old(suggestions) && aiSuggestion == old(aiSuggestion)
    {
      if idx < |editedWords| {
        editedWords := editedWords[idx := value];
      } else {
        editedWords := editedWords + seq(idx - |editedWords|, _ => "") + [value];
      }
    }

    /** `handleWordEditBlur`: stop editing. */
    method HandleWordEditBlur()
      requires Valid()
      modifies this
      ensures Valid()
      ensures editingIdx.None?
      ensures editedWords == old(editedWords) && showSuggestionsIdx == old(showSuggestionsIdx)
      ensures suggestions == old(suggestions) && aiSuggestion == old(aiSuggestion)
    {
      editingIdx := None;
    }

    /** `handleWordEditKeyDown(e)`: Enter stops editing, any other key
        changes nothing. */
    method HandleWordEditKeyDown(key: string)
      requires Valid()
      modifies this
      ensures Valid()
      ensures key == "Enter" ==> editingIdx.None?
      ensures key != "Enter" ==> editingIdx == old(editingIdx)
      ensures editedWords == old(editedWords) && showSuggestionsIdx == old(showSuggestionsIdx)
      ensures suggestions == old(suggestions) && aiSuggestion == old(aiSuggestion)
    {
      if key == "Enter" {
        editingIdx := None;
      }
    }

    /** `handleSuggestionClick(suggestion, idx)`: the word at `idx` becomes
        the suggestion and editing and suggestions are closed. */
    method HandleSuggestionClick(suggestion: string, idx: nat)
      requires Valid()
      modifies this
      ensures Valid()
      ensures |editedWords| == old(|editedWords|)
      ensures forall i | 0 <= i < |editedWords| :: editedWords[i] == if i == idx then suggestion else old(editedWords[i])
      ensures editingIdx.None? && showSuggestionsIdx.None? && suggestions == []
      ensures aiSuggestion == old(aiSuggestion)
    {
      var words := editedWords;
      editedWords := seq(|words|, i requires 0 <= i < |words| => if i == idx then suggestion else words[i]);
      editingIdx := None;
      showSuggestionsIdx := None;
      suggestions := [];
    }
  }

  // ---------------------------------------------------------------------------
  // Lemmas

  /** Without OCR words, joining the initial words gives the text back with
      every white-space run written as one space. */
  lemma InitialWordsRoundTrip(extractedText: string)
    ensures JoinWords(InitialWords(None, extractedText)) == CollapseRuns(extractedText, IsWs, ' ')
  {
    SplitThenJoin(extractedText, IsWs, ' ');
  }

  /** When every word is non-empty and free of white space, the corrected
      text splits back into exactly the edited words. */
  lemma CorrectedTextRoundTrip(editedWords: seq<string>)
    requires |editedWords| >= 1
    requires forall w | w in editedWords :: w != "" && Avoids(w, IsWs)
    ensures SplitWs(JoinWords(editedWords)) == editedWords
  {
    JoinThenSplit(editedWords, IsWs, ' ');
  }

  /** A word followed by nothing or by white space splits into that word,
      then the pieces after the rest's empty first piece. */
  lemma SplitAfterWord(w: string, u: string)
    requires w != "" && Avoids(w, IsWs)
    requires u == [] || IsWs(u[0])
    ensures SplitWs(w + u) == [w] + SplitWs(u)[1..]
  {
    var p := SplitWs(u);
    SplitPrefix(w, u, IsWs);
    EmptyFirstPiece(u);
    assert w + p[0] == w;
  }

  /** The leading non-white-space run of `s` and the rest. */
  lemma LeadingRun(s: string)
    requires s != [] && !IsWs(s[0])
    ensures var u := DropRun(s, NotWs); var w := s[..|s| - |u|];
      s == w + u && w != "" && Avoids(w, IsWs) && (u == [] || IsWs(u[0]))
  {
    var u := DropRun(s, NotWs);
    var k := |s| - |u|;
    var w := s[..k];
    assert u == s[k..];
    assert s == w + u;
    assert NotWs(s[0]) && k > 0;
    forall i | 0 <= i < |w| ensures !IsWs(w[i]) {
      assert w[i] == s[i] && NotWs(s[i]);
    }
  }

  /** A string that is empty or starts with white space splits into an empty
      first piece. */
  lemma EmptyFirstPiece(u: string)
    requires u == [] || IsWs(u[0])
    ensures SplitWs(u)[0] == ""
  {
  }

  /** The displayed word count is the number of maximal non-white-space
      runs. */
  lemma {:induction false} WordCountIsRunCount(s: string)
    ensures WordCount(s) == RunCount(s)
    decreases |s|
  {
    if s == [] {
    } else if IsWs(s[0]) {
      WordCountAfterWs(s);
      WordCountIsRunCount(DropRun(s, IsWs));
    } else {
      WordCountAfterWord(s);
      WordCountIsRunCount(DropRun(s, NotWs));
    }
  }

  /** Leading white space adds no word. */
  lemma WordCountAfterWs(s: string)
    requires s != [] && IsWs(s[0])
    ensures WordCount(s) == WordCount(DropRun(s, IsWs))
  {
    var t := DropRun(s, IsWs);
    assert SplitWs(s) == [""] + SplitWs(t);
    CompactAppend([""], SplitWs(t));
  }

  /** A leading word adds one word. */
  lemma WordCountAfterWord(s: string)
    requires s != [] && !IsWs(s[0])
    ensures WordCount(s) == 1 + WordCount(DropRun(s, NotWs))
  {
    var u := DropRun(s, NotWs);
    var w := s[..|s| - |u|];
    LeadingRun(s);
    SplitAfterWord(w, u);
    var parts := SplitWs(u);
    EmptyFirstPiece(u);
    assert parts == [""] + parts[1..];
    CompactAppend([""], parts[1..]);
    CompactAppend([w], parts[1..]);
  }

  /** A blank text counts zero words. */
  lemma BlankCountsZero(s: string)
    requires IsBlank(s)
    ensures WordCount(s) == 0
  {
    WordCountIsRunCount(s);
    BlankRunCount(s);
  }

  lemma {:induction false} BlankRunCount(s: string)
    requires IsBlank(s)
    ensures RunCount(s) == 0
    decreases |s|
  {
    if s != [] {
      BlankRunCount(DropRun(s, IsWs));
    }
  }
}
