/** The extractive summarizer of `src/utils/summaryService.ts`: sentences are
    the fragments between runs of `.`, `!` and `?` whose trimmed length exceeds
    20; the first, middle and last are picked, then further long sentences in
    document order while the budget allows; the picks are joined with `". "`
    and translated when the target language is not English. */
module SummaryService {
  import opened Wrappers
  import opened Strings
  import opened TranslationService

  const NoContentMessage: string := "No content available for summarization."

  /** `.filter(s => s.trim().length > 20)`, order kept. */
  function LongFragments(fragments: seq<string>): (r: seq<string>)
    ensures |r| <= |fragments|
    ensures forall s :: s in r <==> s in fragments && |Trim(s)| > 20
  {
    if fragments == [] then []
    else Kept(fragments[0]) + LongFragments(fragments[1..])
  }

  /** `text.split(/[.!?]+/).filter(s => s.trim().length > 20)`: the candidate
      sentences, untrimmed. */
  function Candidates(text: string): seq<string> {
    LongFragments(SplitRuns(text, IsSentenceEnd))
  }

  function Min(a: int, b: int): int {
    if a <= b then a else b
  }

  function Max(a: int, b: int): int {
    if a <= b then b else a
  }

  /** `Math.min(5, Math.ceil(n / 3))`: a third of the sentences, rounded up,
      and never more than five. */
  function Budget(n: nat): (b: nat)
    ensures b <= 5
    ensures n <= 15 ==> n <= 3 * b < n + 3
    ensures n >= 13 ==> b == 5
  {
    Min(5, (n + 2) / 3)
  }

  /** The sentences pushed before the scan: the first; the middle one when
      there are more than two; the last when there are more than four. */
  function PriorityPicks(ss: seq<string>): seq<string>
    requires |ss| > 0
  {
    var n := |ss|;
    [ss[0]] + (if n > 2 then [ss[n / 2]] else []) + (if n > 4 then [ss[n - 1]] else [])
  }

  /** The scan `for (i = 1; i < n - 1 && keys.length < budget; i++)`, from
      position `i` with the picks `key` made so far. */
  function ScanFill(ss: seq<string>, key: seq<string>, i: nat, budget: nat): seq<string>
    decreases |ss| - i
  {
    if i + 1 < |ss| && |key| < budget then
      ScanFill(ss, if ss[i] !in key && |ss[i]| > 50 then key + [ss[i]] else key, i + 1, budget)
    else key
  }

  /** The positions the scan takes a sentence from, in the order it takes
      them. */
  ghost function ScanPositions(ss: seq<string>, key: seq<string>, i: nat, budget: nat): seq<nat>
    decreases |ss| - i
  {
    if i + 1 < |ss| && |key| < budget then
      if ss[i] !in key && |ss[i]| > 50 then [i] + ScanPositions(ss, key + [ss[i]], i + 1, budget)
      else ScanPositions(ss, key, i + 1, budget)
    else []
  }

  /** The chosen sentences, in the order they were pushed. */
  function KeySentences(ss: seq<string>): seq<string>
    requires |ss| > 0
  {
    ScanFill(ss, PriorityPicks(ss), 1, Budget(|ss|))
  }

  /** `keys.join('. ').trim() + '.'` */
  function AssembleSummary(keys: seq<string>): (r: string)
    ensures |r| > 0 && r[|r| - 1] == '.'
  {
    Trim(JoinWith(keys, ". ")) + "."
  }

  /** The summary in English, before any translation. */
  function EnglishSummary(text: string): string {
    var ss := Candidates(text);
    if |ss| == 0 then NoContentMessage else AssembleSummary(KeySentences(ss))
  }

  /** What `generateSummary(text, targetLanguage)` resolves to. */
  function Summary(text: string, targetLanguage: string, gateway: Gateway): string {
    if targetLanguage != "en"
    then Translation(EnglishSummary(text), GetTranslationLanguageCode(targetLanguage), None, gateway)
    else EnglishSummary(text)
  }

  /** The gateway requests `generateSummary` makes. */
  function SummaryCalls(text: string, targetLanguage: string): seq<Request> {
    if targetLanguage != "en"
    then GatewayCalls(EnglishSummary(text), GetTranslationLanguageCode(targetLanguage), None)
    else []
  }

  /** `generateSummary(text, targetLanguage)`, with the gateway requests it makes. */
  method GenerateSummary(text: string, targetLanguage: string, gateway: Gateway)
    returns (summary: string, calls: seq<Request>)
    ensures summary == Summary(text, targetLanguage, gateway)
    ensures calls == SummaryCalls(text, targetLanguage)
  {
    var sentences := LongFragments(SplitRuns(text, IsSentenceEnd));
    if |sentences| == 0 {
      summary := NoContentMessage;
    } else {
      var keySentences := ChooseKeySentences(sentences);
      summary := Trim(JoinWith(keySentences, ". ")) + ".";
    }
    calls := [];
    if targetLanguage != "en" {
      summary, calls := TranslateText(summary, GetTranslationLanguageCode(targetLanguage), None, gateway);
    }
  }

  /** The picking part of `generateSummary`: the priority picks, then the
      scan over the middle sentences while the budget allows. */
  method ChooseKeySentences(sentences: seq<string>) returns (keySentences: seq<string>)
    requires |sentences| > 0
    ensures keySentences == KeySentences(sentences)
  {
    var n := |sentences|;
    var maxSentences := Min(5, (n + 2) / 3);
    keySentences := [sentences[0]];
    if n > 2 {
      keySentences := keySentences + [sentences[n / 2]];
    }
    if n > 4 {
      keySentences := keySentences + [sentences[n - 1]];
    }
    assert keySentences == PriorityPicks(sentences);
    var i := 1;
    while i < n - 1 && |keySentences| < maxSentences
      invariant 1 <= i
      invariant ScanFill(sentences, keySentences, i, maxSentences) == KeySentences(sentences)
      decreases n - i
    {
      if sentences[i] !in keySentences && |sentences[i]| > 50 {
        keySentences := keySentences + [sentences[i]];
      }
      i := i + 1;
    }
  }

  // ---------------------------------------------------------------------------
  // Lemmas

  /** The scan keeps what was picked, stops at the budget, adds only long
      sentences not already chosen, and, when it ends below the budget, has
      taken every long sentence it passed. */
  lemma {:induction false} ScanFillProperties(ss: seq<string>, key: seq<string>, i: nat, budget: nat)
    ensures var r := ScanFill(ss, key, i, budget);
      && key <= r
      && |r| <= Max(|key|, budget)
      && (forall j | |key| <= j < |r| :: r[j] in ss && |r[j]| > 50 && r[j] !in r[..j])
      && (|r| < budget ==> forall m | i <= m < |ss| - 1 && |ss[m]| > 50 :: ss[m] in r)
    decreases |ss| - i
  {
    var r := ScanFill(ss, key, i, budget);
    if i + 1 < |ss| && |key| < budget {
      var key' := if ss[i] !in key && |ss[i]| > 50 then key + [ss[i]] else key;
      ScanFillProperties(ss, key', i + 1, budget);
      assert key <= key';
      forall j | |key| <= j < |r| ensures r[j] in ss && |r[j]| > 50 && r[j] !in r[..j] {
        if j < |key'| {
          assert j == |key| && r[j] == ss[i] && r[..j] == key;
        }
      }
      if |r| < budget {
        forall m | i <= m < |ss| - 1 && |ss[m]| > 50 ensures ss[m] in r {
          if m == i {
            assert ss[i] in key';
            assert key' <= r;
          }
        }
      }
    }
  }

  /** What the scan from position `i` does with the picks `key`: the j-th
      sentence it appends is the sentence at its j-th position, the positions
      lie in `i .. |ss| - 2` and increase, and every long sentence up to the
      last position taken ends up chosen (it was taken, or it had been chosen
      before). */
  ghost predicate ScanInOrder(ss: seq<string>, key: seq<string>, i: nat, r: seq<string>, ps: seq<nat>) {
    && |r| == |key| + |ps|
    && (forall j | 0 <= j < |ps| :: i <= ps[j] < |ss| - 1 && r[|key| + j] == ss[ps[j]])
    && (forall j, k | 0 <= j < k < |ps| :: ps[j] < ps[k])
    && (|ps| > 0 ==> forall m | i <= m <= ps[|ps| - 1] && |ss[m]| > 50 :: ss[m] in r)
  }

  lemma {:induction false} ScanFillOrder(ss: seq<string>, key: seq<string>, i: nat, budget: nat)
    ensures ScanInOrder(ss, key, i, ScanFill(ss, key, i, budget), ScanPositions(ss, key, i, budget))
    decreases |ss| - i
  {
    if i + 1 < |ss| && |key| < budget {
      var taken := ss[i] !in key && |ss[i]| > 50;
      var key' := if taken then key + [ss[i]] else key;
      ScanFillOrder(ss, key', i + 1, budget);
      ScanFillProperties(ss, key', i + 1, budget);
      assert ScanFill(ss, key, i, budget) == ScanFill(ss, key', i + 1, budget);
      if taken {
        assert ScanPositions(ss, key, i, budget) == [i] + ScanPositions(ss, key', i + 1, budget);
        ScanTakenStep(ss, key, i, ScanFill(ss, key', i + 1, budget), ScanPositions(ss, key', i + 1, budget));
      } else {
        assert ScanPositions(ss, key, i, budget) == ScanPositions(ss, key', i + 1, budget);
        ScanSkippedStep(ss, key, i, ScanFill(ss, key', i + 1, budget), ScanPositions(ss, key', i + 1, budget));
      }
    }
  }

  /** The step of `ScanFillOrder` when the sentence at `i` is taken. */
  lemma ScanTakenStep(ss: seq<string>, key: seq<string>, i: nat, r: seq<string>, ps': seq<nat>)
    requires i + 1 < |ss|
    requires key + [ss[i]] <= r
    requires ScanInOrder(ss, key + [ss[i]], i + 1, r, ps')
    ensures ScanInOrder(ss, key, i, r, [i] + ps')
  {
    var key' := key + [ss[i]];
    var ps := [i] + ps';
    assert r[|key|] == key'[|key|] == ss[i];
    forall j | 0 <= j < |ps| ensures i <= ps[j] < |ss| - 1 && r[|key| + j] == ss[ps[j]] {
      if j > 0 {
        assert ps[j] == ps'[j - 1];
      }
    }
    forall j, k | 0 <= j < k < |ps| ensures ps[j] < ps[k] {
      assert ps[k] == ps'[k - 1];
      if j > 0 { assert ps[j] == ps'[j - 1]; }
    }
    if ps' != [] {
      assert ps[|ps| - 1] == ps'[|ps'| - 1];
    }
  }

  /** The step of `ScanFillOrder` when the sentence at `i` is passed over. */
  lemma ScanSkippedStep(ss: seq<string>, key: seq<string>, i: nat, r: seq<string>, ps: seq<nat>)
    requires i + 1 < |ss|
    requires key <= r
    requires ss[i] in key || |ss[i]| <= 50
    requires ScanInOrder(ss, key, i + 1, r, ps)
    ensures ScanInOrder(ss, key, i, r, ps)
  {
    if ss[i] in key {
      var j :| 0 <= j < |key| && key[j] == ss[i];
      assert r[j] == ss[i];
    }
  }

  /** The shape of the chosen sentences: the first sentence leads, then the
      middle one (more than two sentences), then the last (more than four);
      at most five in all, never fewer than the priority picks, never more than
      the budget unless the priority picks alone exceed it; every one comes
      from the text; the scan adds long, new sentences only, and when the
      budget is not reached it has taken every long middle sentence. */
  lemma KeySentencesShape(ss: seq<string>)
    requires |ss| > 0
    ensures var r := KeySentences(ss); var n := |ss|; var p := PriorityPicks(ss);
      && |p| <= |r| <= Max(Budget(n), |p|) <= 5
      && r[0] == ss[0]
      && (n > 2 ==> |r| > 1 && r[1] == ss[n / 2])
      && (n > 4 ==> |r| > 2 && r[2] == ss[n - 1])
      && (forall s | s in r :: s in ss)
      && (forall j | |p| <= j < |r| :: |r[j]| > 50 && r[j] !in r[..j])
      && (|r| < Budget(n) ==> forall m | 1 <= m < n - 1 && |ss[m]| > 50 :: ss[m] in r)
  {
    var r := KeySentences(ss);
    var p := PriorityPicks(ss);
    ScanFillProperties(ss, p, 1, Budget(|ss|));
    assert p <= r;
    forall s | s in r ensures s in ss {
      var j :| 0 <= j < |r| && r[j] == s;
      if j < |p| { assert r[j] == p[j]; }
    }
  }

  /** After the priority picks, the chosen sentences are middle sentences
      taken in document order, and none of the long middle sentences the
      scan passed before its last pick is missing. */
  lemma KeySentencesScanOrder(ss: seq<string>)
    requires |ss| > 0
    ensures var r := KeySentences(ss); var p := PriorityPicks(ss);
      var ps := ScanPositions(ss, p, 1, Budget(|ss|));
      && |r| == |p| + |ps|
      && (forall j | 0 <= j < |ps| :: 1 <= ps[j] < |ss| - 1 && r[|p| + j] == ss[ps[j]])
      && (forall j, k | 0 <= j < k < |ps| :: ps[j] < ps[k])
      && (|ps| > 0 ==> forall m | 1 <= m <= ps[|ps| - 1] && |ss[m]| > 50 :: ss[m] in r)
  {
    ScanFillOrder(ss, PriorityPicks(ss), 1, Budget(|ss|));
  }

  /** Filtering distributes over concatenation: the long fragments keep
      their order and their repetitions. */
  lemma {:induction false} LongFragmentsAppend(a: seq<string>, b: seq<string>)
    ensures LongFragments(a + b) == LongFragments(a) + LongFragments(b)
    decreases |a|
  {
    if a == [] {
      assert a + b == b;
    } else {
      LongFragmentsAppend(a[1..], b);
      LongFragmentsUnfold(a, b);
      ConcatAssoc(Kept(a[0]), LongFragments(a[1..]), LongFragments(b));
    }
  }

  /** `[s]` when the fragment is long, `[]` otherwise. */
  function Kept(s: string): seq<string> {
    if |Trim(s)| > 20 then [s] else []
  }

  /** The first fragment of a non-empty run is kept or dropped on its own. */
  lemma LongFragmentsUnfold(a: seq<string>, b: seq<string>)
    requires a != []
    ensures LongFragments(a) == Kept(a[0]) + LongFragments(a[1..])
    ensures LongFragments(a + b) == Kept(a[0]) + LongFragments(a[1..] + b)
  {
    assert (a + b)[0] == a[0];
    assert (a + b)[1..] == a[1..] + b;
  }

  /** Five sentences give three picks against a budget of two: the priority
      picks are pushed regardless of the budget. */
  lemma FiveSentencesExceedBudget(ss: seq<string>)
    requires |ss| == 5
    ensures Budget(5) == 2
    ensures KeySentences(ss) == [ss[0], ss[2], ss[4]]
  {
  }

  /** Ten sentences: a budget of four, led by the first and the middle one. */
  lemma TenSentences(ss: seq<string>)
    requires |ss| == 10
    ensures Budget(10) == 4
    ensures var r := KeySentences(ss); 3 <= |r| <= 4 && r[0] == ss[0] && r[1] == ss[5] && r[2] == ss[9]
  {
    KeySentencesShape(ss);
  }

  /** An English summary always ends with a period. */
  lemma EnglishSummaryEndsWithPeriod(text: string, gateway: Gateway)
    ensures var s := Summary(text, "en", gateway); |s| > 0 && s[|s| - 1] == '.'
  {
  }

  /** A text of at most 20 characters has no candidate sentence, so its
      English summary is the no-content message. */
  lemma ShortTextHasNoContent(text: string, gateway: Gateway)
    requires |text| <= 20
    ensures Candidates(text) == []
    ensures Summary(text, "en", gateway) == NoContentMessage
  {
    var fragments := SplitRuns(text, IsSentenceEnd);
    SplitRunsShorter(text, IsSentenceEnd);
    forall f | f in fragments ensures |Trim(f)| <= 20 {
      TrimSlice(f);
    }
    NoLongFragments(fragments);
  }

  lemma {:induction false} NoLongFragments(fragments: seq<string>)
    requires forall f | f in fragments :: |Trim(f)| <= 20
    ensures LongFragments(fragments) == []
  {
    if fragments != [] {
      NoLongFragments(fragments[1..]);
    }
  }

  /** The gateway is used exactly when the target language is not English. */
  lemma TranslatesExactlyWhenNotEnglish(text: string, targetLanguage: string)
    ensures SummaryCalls(text, targetLanguage) != [] <==> targetLanguage != "en"
  {
    EnglishSummaryNotBlank(text);
    GatewayRequestsBounded(EnglishSummary(text), GetTranslationLanguageCode(targetLanguage), None);
  }

  /** The English summary is never blank: it ends with '.'. */
  lemma EnglishSummaryNotBlank(text: string)
    ensures !IsBlank(EnglishSummary(text))
  {
    var e := EnglishSummary(text);
    assert |e| > 0 && e[|e| - 1] == '.';
    NotBlankIfLastNotWs(e);
  }
}
