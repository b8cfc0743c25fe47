/** `src/pages/MindMapPage.tsx`: the summary is cut into sentences, each a
    child node of a root node, each joined to the root by one edge. Styles
    and handle positions are presentation and are not modelled. */
module MindMapPage {
  import opened Wrappers
  import opened Strings

  datatype Position = Position(x: int, y: int)
  /** A node; `caption` is its `data.label`. */
  datatype Node = Node(id: string, caption: string, position: Position)
  datatype Edge = Edge(id: string, source: string, target: string)
  datatype Flow = Flow(nodes: seq<Node>, edges: seq<Edge>)

  const RootNode: Node := Node("root", "Summary", Position(0, 250))

  /** The decimal digits of `n`, as a template literal prints it. */
  function NatToString(n: nat): (s: string)
    ensures |s| >= 1
    ensures forall c | c in s :: '0' <= c <= '9'
    decreases n
  {
    if n < 10 then [Digit(n)] else NatToString(n / 10) + [Digit(n % 10)]
  }

  function Digit(d: nat): char
    requires d < 10
  {
    "0123456789"[d]
  }

  /** The value of a string of decimal digits. */
  function ParseDecimal(s: string): nat
    decreases |s|
  {
    if s == [] then 0
    else ParseDecimal(s[..|s| - 1]) * 10 + DigitValue(s[|s| - 1])
  }

  function DigitValue(c: char): nat {
    if '0' <= c <= '9' then (c as int - '0' as int) else 0
  }

  /** `child-${i}` */
  function ChildId(i: nat): string {
    "child-" + NatToString(i)
  }

  /** `summary.split(/(?<=[.!?])\s+/).filter(Boolean)` */
  function Children(summary: string): seq<string> {
    Compact(SplitAfterSentenceEnd(summary))
  }

  /** `parseSummaryToFlow(summary)` */
  function ParseSummaryToFlow(summary: string): (f: Flow)
    ensures var children := Children(summary);
      && |f.nodes| == |children| + 1 && f.nodes[0] == RootNode
      && |f.edges| == |children|
      && (forall i | 0 <= i < |children| ::
            f.nodes[i + 1] == Node(ChildId(i), children[i], Position(350, i * 120)))
      && (forall i | 0 <= i < |children| ::
            f.edges[i] == Edge("e-root-" + ChildId(i), RootNode.id, ChildId(i)))
  {
    var children := Children(summary);
    var childNodes := seq(|children|, i requires 0 <= i < |children| =>
      Node(ChildId(i), children[i], Position(350, i * 120)));
    var edges := seq(|children|, i requires 0 <= i < |children| =>
      Edge("e-root-" + ChildId(i), "root", ChildId(i)));
    Flow([RootNode] + childNodes, edges)
  }

  /** The ids of a flow's nodes. */
  function NodeIds(f: Flow): set<string> {
    set n | n in f.nodes :: n.id
  }

  /** What the graph renderer relies on: node ids are distinct, edge ids
      are distinct, and every edge joins two existing nodes. */
  predicate WellFormed(f: Flow) {
    && (forall i, j | 0 <= i < j < |f.nodes| :: f.nodes[i].id != f.nodes[j].id)
    && (forall i, j | 0 <= i < j < |f.edges| :: f.edges[i].id != f.edges[j].id)
    && (forall e | e in f.edges :: e.source in NodeIds(f) && e.target in NodeIds(f))
  }

  /** `location.state?.summary || ''` and `location.state?.selectedLanguage
      || 'en'`: a missing or empty value takes the default. */
  function SummaryOrDefault(summary: Option<string>): (r: string)
    ensures summary.Some? ==> r == summary.value
    ensures summary.None? ==> r == ""
  {
    if summary.Some? && summary.value != "" then summary.value else ""
  }

  function LanguageOrDefault(language: Option<string>): (r: string)
    ensures r != ""
    ensures language.Some? && language.value != "" ==> r == language.value
  {
    if language.Some? && language.value != "" then language.value else "en"
  }

  // ---------------------------------------------------------------------------
  // Lemmas

  /** Printing a number and reading it back gives the number. */
  lemma {:induction false} ParsePrinted(n: nat)
    ensures ParseDecimal(NatToString(n)) == n
    decreases n
  {
    var s := NatToString(n);
    if n < 10 {
      assert s[..0] == [];
    } else {
      ParsePrinted(n / 10);
      assert s[..|s| - 1] == NatToString(n / 10);
    }
  }

  /** Distinct children get distinct ids. */
  lemma ChildIdInjective(i: nat, j: nat)
    requires i != j
    ensures ChildId(i) != ChildId(j)
  {
    if ChildId(i) == ChildId(j) {
      assert NatToString(i) == ChildId(i)[6..];
      assert NatToString(j) == ChildId(j)[6..];
      ParsePrinted(i);
      ParsePrinted(j);
    }
  }

  /** Every flow built from a summary is well formed. */
  lemma FlowWellFormed(summary: string)
    ensures WellFormed(ParseSummaryToFlow(summary))
  {
    var f := ParseSummaryToFlow(summary);
    NodeIdsDistinct(summary);
    EdgeIdsDistinct(summary);
    EdgesJoinNodes(summary);
  }

  lemma NodeIdsDistinct(summary: string)
    ensures var f := ParseSummaryToFlow(summary);
      forall i, j | 0 <= i < j < |f.nodes| :: f.nodes[i].id != f.nodes[j].id
  {
    var f := ParseSummaryToFlow(summary);
    var ids := seq(|f.nodes|, k requires 0 <= k < |f.nodes| => f.nodes[k].id);
    forall k | 0 <= k < |ids|
      ensures ids[k] == if k == 0 then "root" else ChildId(k - 1)
    {
      NodeIdAt(summary, k);
    }
    IdsDistinct(ids);
    forall i, j | 0 <= i < j < |f.nodes|
      ensures f.nodes[i].id != f.nodes[j].id
    {
      assert ids[i] == f.nodes[i].id && ids[j] == f.nodes[j].id;
    }
  }

  /** The root id followed by the child ids in order has no repeats. */
  lemma IdsDistinct(ids: seq<string>)
    requires forall k | 0 <= k < |ids| :: ids[k] == if k == 0 then "root" else ChildId(k - 1)
    ensures forall i, j | 0 <= i < j < |ids| :: ids[i] != ids[j]
  {
    forall i, j | 0 <= i < j < |ids|
      ensures ids[i] != ids[j]
    {
      var c := ChildId(j - 1);
      assert ids[j] == c;
      if i == 0 {
        assert c[1] == 'h' && "root"[1] == 'o';
      } else {
        ChildIdInjective(i - 1, j - 1);
      }
    }
  }

  /** The id of the node at position `k`. */
  lemma NodeIdAt(summary: string, k: nat)
    requires k < |ParseSummaryToFlow(summary).nodes|
    ensures ParseSummaryToFlow(summary).nodes[k].id == if k == 0 then "root" else ChildId(k - 1)
  {
    if k > 0 {
      var i := k - 1;
      assert ParseSummaryToFlow(summary).nodes[i + 1].id == ChildId(i);
    }
  }

  lemma EdgeIdsDistinct(summary: string)
    ensures var f := ParseSummaryToFlow(summary);
      forall i, j | 0 <= i < j < |f.edges| :: f.edges[i].id != f.edges[j].id
  {
    var f := ParseSummaryToFlow(summary);
    forall i, j | 0 <= i < j < |f.edges|
      ensures f.edges[i].id != f.edges[j].id
    {
      ChildIdInjective(i, j);
      assert f.edges[i].id[7..] == ChildId(i);
      assert f.edges[j].id[7..] == ChildId(j);
    }
  }

  lemma EdgesJoinNodes(summary: string)
    ensures var f := ParseSummaryToFlow(summary);
      forall e | e in f.edges :: e.source in NodeIds(f) && e.target in NodeIds(f)
  {
    var f := ParseSummaryToFlow(summary);
    forall e | e in f.edges
      ensures e.source in NodeIds(f) && e.target in NodeIds(f)
    {
      var k :| 0 <= k < |f.edges| && f.edges[k] == e;
      assert f.nodes[0] in f.nodes;
      assert f.nodes[k + 1] in f.nodes;
    }
  }

  /** Every child label is a non-empty sentence with no sentence end
      followed by white space inside it. */
  lemma ChildrenAreSentences(summary: string)
    ensures forall c | c in Children(summary) :: c != "" && NoEndThenWs(c)
  {
    SplitAfterEndPieces(summary, false);
  }

  /** The child labels, read one after another, are the summary without the
      white space that separates its sentences. */
  lemma ChildrenCoverSummary(summary: string)
    ensures JoinWith(Children(summary), "") == DropRunsAfterEnd(summary, false)
  {
    CompactJoin(SplitAfterSentenceEnd(summary));
    SplitAfterEndCover(summary, false);
  }

  /** An empty summary (also the default of a missing one) gives the root
      alone. */
  lemma EmptySummaryIsRootOnly()
    ensures ParseSummaryToFlow(SummaryOrDefault(None)) == Flow([RootNode], [])
  {
    assert Children("") == [];
  }

  /** Two one-letter sentences separated by a space give two children,
      the first keeping its period. */
  lemma TwoSentencesExample(a: char, b: char)
    requires !IsWs(a) && !IsSentenceEnd(a) && !IsWs(b) && !IsSentenceEnd(b)
    ensures Children([a, '.', ' ', b]) == [[a, '.'], [b]]
  {
    assert SplitAfterEndFrom([], false) == [[]];
    SplitStep(b, [], false);
    assert [b] + [] == [b];
    assert SplitAfterEndFrom([b], false) == [[b]];
    assert [' ', b][1..] == [b];
    assert DropRun([' ', b], IsWs) == [b];
    assert SplitAfterEndFrom([' ', b], true) == [[], [b]];
    SplitStep('.', [' ', b], false);
    assert IsSentenceEnd('.') && ['.'] + [] == ['.'];
    assert ['.'] + [' ', b] == ['.', ' ', b];
    assert SplitAfterEndFrom(['.', ' ', b], false) == [['.'], [b]];
    SplitStep(a, ['.', ' ', b], false);
    assert [a] + ['.', ' ', b] == [a, '.', ' ', b] && [a] + ['.'] == [a, '.'];
    assert SplitAfterEndFrom([a, '.', ' ', b], false) == [[a, '.'], [b]];
    var parts: seq<string> := [[a, '.'], [b]];
    assert parts[1..] == [[b]] && [[b]][1..] == [];
    assert Compact([[b]]) == [[b]];
    assert Compact(parts) == [[a, '.']] + Compact([[b]]);
  }

  /** One character that does not begin a separator joins the first piece. */
  lemma SplitStep(c: char, s: string, afterEnd: bool)
    requires !(afterEnd && IsWs(c))
    ensures var rest := SplitAfterEndFrom(s, IsSentenceEnd(c));
      SplitAfterEndFrom([c] + s, afterEnd) == [[c] + rest[0]] + rest[1..]
  {
    assert ([c] + s)[0] == c && ([c] + s)[1..] == s;
  }

  /** The language shown falls back to English for an empty value too. */
  lemma EmptyLanguageIsEnglish()
    ensures LanguageOrDefault(Some("")) == "en" && LanguageOrDefault(None) == "en"
  {
  }
}
