/** The chunked translator of `src/utils/translationService.ts`: the text is cut
    into pieces of at most 500 characters, each piece is sent to the
    translation gateway in order, a failed piece is kept untranslated, and the
    pieces are joined with single spaces. The gateway is a parameter. */
module TranslationService {
  import opened Wrappers
  import opened Strings

  /** The largest number of characters sent to the gateway in one request. */
  const ChunkSize: nat := 500

  /** The eight language codes the app offers (the language selector's list),
      which are also the keys of the translator's code table. */
  const SupportedLanguages: set<string> := {"en", "hi", "fr", "es", "de", "zh", "ja", "ar"}

  /** One POST to the gateway's `/api/translate`. */
  datatype Request = Request(text: string, targetLanguage: string, sourceLanguage: string)

  /** What one gateway call produced: a successful response, a response whose
      status is not ok, or an exception (network error, bad body). */
  datatype Reply = Ok(translatedText: string) | NotOk | Thrown

  /** The gateway, as a function of the request it is sent. */
  type Gateway = Request -> Reply

  /** `getTranslationLanguageCode`: the code table, with `'en'` for any code
      that is not in it. */
  function GetTranslationLanguageCode(code: string): (r: string)
    ensures r in SupportedLanguages
    ensures r == code <==> code in SupportedLanguages
  {
    match code
    case "en" => "en"
    case "hi" => "hi"
    case "fr" => "fr"
    case "es" => "es"
    case "de" => "de"
    case "zh" => "zh"
    case "ja" => "ja"
    case "ar" => "ar"
    case _ => "en"
  }

  /** `sourceLanguage || 'auto'`: a missing or empty source language is `'auto'`. */
  function SourceOrAuto(source: Option<string>): (r: string)
    ensures r != ""
    ensures source.Some? && source.value != "" ==> r == source.value
    ensures source.None? || source.value == "" ==> r == "auto"
  {
    match source
    case Some(s) => if s == "" then "auto" else s
    case None => "auto"
  }

  /** How many of the leading characters of `s`, at most `cap`, the regular
      expression `.{1,cap}` takes: it stops at a line terminator. */
  function LeadRun(s: string, cap: nat): (n: nat)
    ensures n <= cap && n <= |s|
    ensures forall i | 0 <= i < n :: !IsLineTerminator(s[i])
    ensures n == cap || n == |s| || IsLineTerminator(s[n])
  {
    if s == [] || cap == 0 || IsLineTerminator(s[0]) then 0 else 1 + LeadRun(s[1..], cap - 1)
  }

  /** The matches of `text.match(/.{1,500}/g)`, `[]` standing for `null`: every
      maximal stretch without line terminators, cut greedily into pieces of
      500 characters. */
  function Chunks(s: string): seq<string>
    decreases |s|
  {
    if s == [] then []
    else if IsLineTerminator(s[0]) then Chunks(s[1..])
    else
      var n := LeadRun(s, ChunkSize);
      assert n >= 1;
      [s[..n]] + Chunks(s[n..])
  }

  /** `text.match(/.{1,500}/g) || [text]` */
  function ChunksOrWhole(text: string): seq<string> {
    var m := Chunks(text);
    if m == [] then [text] else m
  }

  /** The text with every line terminator removed. */
  function WithoutLineTerminators(s: string): (r: string)
    ensures Avoids(r, IsLineTerminator)
  {
    if s == [] then []
    else (if IsLineTerminator(s[0]) then [] else [s[0]]) + WithoutLineTerminators(s[1..])
  }

  /** What is pushed for one chunk: the gateway's text on success, the chunk
      itself otherwise. */
  function Piece(chunk: string, reply: Reply): string {
    match reply
    case Ok(t) => t
    case NotOk => chunk
    case Thrown => chunk
  }

  /** One request per chunk, in order. */
  function ChunkRequests(chunks: seq<string>, target: string, srcLang: string): (r: seq<Request>)
    ensures |r| == |chunks|
    ensures forall k | 0 <= k < |chunks| :: r[k] == Request(chunks[k], target, srcLang)
  {
    seq(|chunks|, k requires 0 <= k < |chunks| => Request(chunks[k], target, srcLang))
  }

  /** What is pushed for each chunk, in order. */
  function ChunkPieces(chunks: seq<string>, target: string, srcLang: string, gateway: Gateway): (r: seq<string>)
    ensures |r| == |chunks|
    ensures forall k | 0 <= k < |chunks| :: r[k] == Piece(chunks[k], gateway(Request(chunks[k], target, srcLang)))
  {
    seq(|chunks|, k requires 0 <= k < |chunks| => Piece(chunks[k], gateway(Request(chunks[k], target, srcLang))))
  }

  /** The requests `translateText` sends, in order. */
  function GatewayCalls(text: string, target: string, source: Option<string>): seq<Request> {
    if Trim(text) == "" then [] else ChunkRequests(ChunksOrWhole(text), target, SourceOrAuto(source))
  }

  /** The string `translateText` resolves to. */
  function Translation(text: string, target: string, source: Option<string>, gateway: Gateway): string {
    if Trim(text) == "" then text
    else JoinWith(ChunkPieces(ChunksOrWhole(text), target, SourceOrAuto(source), gateway), " ")
  }

  /** `translateText(text, targetLanguage, sourceLanguage)`; `calls` is the
      sequence of gateway requests it makes. */
  method TranslateText(text: string, targetLanguage: string, sourceLanguage: Option<string>, gateway: Gateway)
    returns (translated: string, calls: seq<Request>)
    ensures Trim(text) == "" ==> translated == text && calls == []
    ensures translated == Translation(text, targetLanguage, sourceLanguage, gateway)
    ensures calls == GatewayCalls(text, targetLanguage, sourceLanguage)
  {
    if Trim(text) == "" {
      return text, [];
    }
    var chunks := ChunksOrWhole(text);
    var translatedChunks;
    translatedChunks, calls := TranslateChunks(chunks, targetLanguage, SourceOrAuto(sourceLanguage), gateway);
    translated := JoinWith(translatedChunks, " ");
  }

  /** The loop of `translateText`: one gateway request per chunk, the reply
      kept on success and the chunk itself on any failure. */
  method TranslateChunks(chunks: seq<string>, targetLanguage: string, srcLang: string, gateway: Gateway)
    returns (translatedChunks: seq<string>, calls: seq<Request>)
    ensures translatedChunks == ChunkPieces(chunks, targetLanguage, srcLang, gateway)
    ensures calls == ChunkRequests(chunks, targetLanguage, srcLang)
  {
    translatedChunks := [];
    calls := [];
    for k := 0 to |chunks|
      invariant |translatedChunks| == k && |calls| == k
      invariant forall j | 0 <= j < k :: calls[j] == Request(chunks[j], targetLanguage, srcLang)
      invariant forall j | 0 <= j < k :: translatedChunks[j] == Piece(chunks[j], gateway(calls[j]))
    {
      var request := Request(chunks[k], targetLanguage, srcLang);
      var reply := gateway(request);
      calls := calls + [request];
      match reply {
        case Ok(t) => translatedChunks := translatedChunks + [t];
        case NotOk => translatedChunks := translatedChunks + [chunks[k]];
        case Thrown => translatedChunks := translatedChunks + [chunks[k]];
      }
    }
  }

  // ---------------------------------------------------------------------------
  // Lemmas

  /** Every chunk holds between 1 and 500 characters and no line terminator. */
  lemma {:induction false} ChunkBounds(s: string)
    ensures forall c | c in Chunks(s) :: 1 <= |c| <= ChunkSize && Avoids(c, IsLineTerminator)
    decreases |s|
  {
    if s == [] {
    } else if IsLineTerminator(s[0]) {
      ChunkBounds(s[1..]);
    } else {
      var n := LeadRun(s, ChunkSize);
      ChunkBounds(s[n..]);
    }
  }

  lemma ConcatCons(x: string, rest: seq<string>)
    ensures JoinWith([x] + rest, "") == x + JoinWith(rest, "")
  {
    if rest != [] {
      assert ([x] + rest)[1..] == rest;
    }
  }

  lemma {:induction false} WithoutLineTerminatorsAppend(a: string, b: string)
    ensures WithoutLineTerminators(a + b) == WithoutLineTerminators(a) + WithoutLineTerminators(b)
    decreases |a|
  {
    if a == [] {
      assert a + b == b;
    } else {
      WithoutLineTerminatorsAppend(a[1..], b);
      var head: string := if IsLineTerminator(a[0]) then [] else [a[0]];
      assert (a + b)[0] == a[0] && (a + b)[1..] == a[1..] + b;
      assert WithoutLineTerminators(a + b) == head + WithoutLineTerminators(a[1..] + b);
      assert WithoutLineTerminators(a) == head + WithoutLineTerminators(a[1..]);
    }
  }

  lemma {:induction false} WithoutLineTerminatorsClean(a: string)
    requires Avoids(a, IsLineTerminator)
    ensures WithoutLineTerminators(a) == a
    decreases |a|
  {
    if a != [] {
      WithoutLineTerminatorsClean(a[1..]);
    }
  }

  /** Read one after another, the chunks are the text with its line
      terminators removed: nothing else is lost, duplicated or reordered. */
  lemma {:induction false} ChunksCover(s: string)
    ensures JoinWith(Chunks(s), "") == WithoutLineTerminators(s)
    decreases |s|
  {
    if s == [] {
    } else if IsLineTerminator(s[0]) {
      ChunksCover(s[1..]);
    } else {
      var n := LeadRun(s, ChunkSize);
      ChunksCover(s[n..]);
      ConcatCons(s[..n], Chunks(s[n..]));
      assert s == s[..n] + s[n..];
      WithoutLineTerminatorsAppend(s[..n], s[n..]);
      WithoutLineTerminatorsClean(s[..n]);
    }
  }

  /** The regular expression finds at least one chunk in any text that is not
      blank, so the `|| [text]` fallback only concerns blank text. */
  lemma {:induction false} ChunksOfNonBlank(s: string)
    requires !IsBlank(s)
    ensures Chunks(s) != []
    decreases |s|
  {
    if IsLineTerminator(s[0]) {
      ChunksOfNonBlank(s[1..]);
    }
  }

  /** The k-th slice of 500 characters of `s`, shorter at the end. */
  function Slice500(s: string, k: nat): string
    requires ChunkSize * k < |s|
  {
    if ChunkSize * k + ChunkSize <= |s| then s[ChunkSize * k .. ChunkSize * k + ChunkSize] else s[ChunkSize * k ..]
  }

  /** Text without line terminators is cut at every multiple of 500. */
  lemma {:induction false} ChunksOfSingleLine(s: string)
    requires Avoids(s, IsLineTerminator)
    ensures |Chunks(s)| == (|s| + ChunkSize - 1) / ChunkSize
    ensures forall k | 0 <= k < |Chunks(s)| :: ChunkSize * k < |s| && Chunks(s)[k] == Slice500(s, k)
    decreases |s|
  {
    if s != [] {
      var n := LeadRun(s, ChunkSize);
      assert n == if ChunkSize <= |s| then ChunkSize else |s|;
      var rest := s[n..];
      assert Avoids(rest, IsLineTerminator) by {
        forall i | 0 <= i < |rest| ensures !IsLineTerminator(rest[i]) { assert rest[i] == s[n + i]; }
      }
      ChunksOfSingleLine(rest);
      var cs := Chunks(s);
      var tail := Chunks(rest);
      assert cs == [s[..n]] + tail;
      assert |cs| == (|s| + ChunkSize - 1) / ChunkSize by {
        if n < ChunkSize { assert rest == []; }
      }
      forall k | 0 <= k < |cs| ensures ChunkSize * k < |s| && cs[k] == Slice500(s, k) {
        if k > 0 {
          ChunkShift(s, n, k - 1, tail);
        }
      }
    }
  }

  lemma ChunkShift(s: string, n: nat, j: nat, tail: seq<string>)
    requires n == ChunkSize <= |s|
    requires j < |tail| && ChunkSize * j < |s[n..]| && tail[j] == Slice500(s[n..], j)
    ensures ChunkSize * (j + 1) < |s| && tail[j] == Slice500(s, j + 1)
  {
  }

  /** The example of a 1200-character line: three gateway calls, carrying
      500, 500 and 200 characters. */
  lemma ChunkingExample(s: string)
    requires |s| == 1200 && Avoids(s, IsLineTerminator)
    ensures var cs := ChunksOrWhole(s);
      |cs| == 3 && cs[0] == s[..500] && cs[1] == s[500..1000] && cs[2] == s[1000..]
  {
    ChunksOfSingleLine(s);
  }

  /** Every request the gateway receives carries 1 to 500 characters and no
      line terminator, and the requests together carry all of the text except
      its line terminators. */
  lemma GatewayRequestsBounded(text: string, target: string, source: Option<string>)
    ensures var calls := GatewayCalls(text, target, source);
      && (forall r | r in calls :: 1 <= |r.text| <= ChunkSize && Avoids(r.text, IsLineTerminator))
      && (calls != [] ==> JoinWith(ChunksOrWhole(text), "") == WithoutLineTerminators(text))
      && (calls == [] <==> IsBlank(text))
  {
    TrimEmptyIffBlank(text);
    if !IsBlank(text) {
      ChunksOfNonBlank(text);
      ChunkBounds(text);
      ChunksCover(text);
      RequestsCarryChunks(Chunks(text), target, SourceOrAuto(source));
    }
  }

  /** Requests built from chunks of 1 to 500 characters without line
      terminators carry such chunks. */
  lemma RequestsCarryChunks(chunks: seq<string>, target: string, srcLang: string)
    requires forall c | c in chunks :: 1 <= |c| <= ChunkSize && Avoids(c, IsLineTerminator)
    ensures forall r | r in ChunkRequests(chunks, target, srcLang) ::
      1 <= |r.text| <= ChunkSize && Avoids(r.text, IsLineTerminator)
  {
    var calls := ChunkRequests(chunks, target, srcLang);
    forall r | r in calls ensures 1 <= |r.text| <= ChunkSize && Avoids(r.text, IsLineTerminator) {
      var k :| 0 <= k < |calls| && calls[k] == r;
      assert chunks[k] in chunks;
    }
  }

  /** Failure isolation: the translation of a non-blank text is one piece
      per chunk, joined by single spaces; piece k is the gateway's text when
      request k (which carries chunk k) succeeds, and chunk k itself,
      untranslated, when it does not. */
  lemma FailedChunkKeptVerbatim(text: string, target: string, source: Option<string>, gateway: Gateway)
    requires !IsBlank(text)
    ensures var cs := ChunksOrWhole(text); var calls := GatewayCalls(text, target, source);
      var pieces := ChunkPieces(cs, target, SourceOrAuto(source), gateway);
      && Translation(text, target, source, gateway) == JoinWith(pieces, " ")
      && 1 <= |pieces| == |cs| == |calls|
      && forall k | 0 <= k < |cs| ::
           && calls[k].text == cs[k]
           && pieces[k] == (if gateway(calls[k]).Ok? then gateway(calls[k]).translatedText else cs[k])
  {
    TrimEmptyIffBlank(text);
  }

  /** With a gateway that never answers Ok, the text comes back cut into
      its chunks and joined by single spaces; a single line of at most 500
      characters comes back unchanged. */
  lemma GatewayDownKeepsText(text: string, target: string, source: Option<string>, gateway: Gateway)
    requires forall q :: !gateway(q).Ok?
    ensures Translation(text, target, source, gateway) ==
      if IsBlank(text) then text else JoinWith(ChunksOrWhole(text), " ")
    ensures |text| <= ChunkSize && Avoids(text, IsLineTerminator) ==>
      Translation(text, target, source, gateway) == text
  {
    TrimEmptyIffBlank(text);
    var cs := ChunksOrWhole(text);
    assert ChunkPieces(cs, target, SourceOrAuto(source), gateway) == cs;
    if |text| <= ChunkSize && Avoids(text, IsLineTerminator) && !IsBlank(text) {
      ChunksOfSingleLine(text);
      assert |Chunks(text)| == 1;
      assert Chunks(text)[0] == Slice500(text, 0) == text;
    }
  }
}
