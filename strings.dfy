/** The JavaScript string operations the app's text pipeline is built from:
    `split` on a regular expression that matches runs of one character class,
    `join`, `trim`, and `replace(/\s+/g, ' ')`. */
module Strings {

  /** A character `\s` matches and `trim()` removes: ECMAScript's WhiteSpace
      and LineTerminator code points, as a fixed set. */
  predicate IsWs(c: char) {
    || c as int in {0x09, 0x0A, 0x0B, 0x0C, 0x0D, 0x20, 0xA0, 0x1680, 0x2028, 0x2029, 0x202F, 0x205F, 0x3000, 0xFEFF}
    || 0x2000 <= c as int <= 0x200A
  }

  /** A character the regular-expression `.` does not match. */
  predicate IsLineTerminator(c: char) {
    c as int in {0x0A, 0x0D, 0x2028, 0x2029}
  }

  /** `!s.trim()`: the string is empty or whitespace only. */
  predicate IsBlank(s: string) {
    forall i | 0 <= i < |s| :: IsWs(s[i])
  }

  /** No character of `s` is in the class `sep`. */
  predicate Avoids(s: string, sep: char -> bool) {
    forall i | 0 <= i < |s| :: !sep(s[i])
  }

  /** `prefix.startsWith` in the source, written `prefix <= s` in Dafny; `endsWith`: */
  predicate EndsWith(s: string, suffix: string) {
    |suffix| <= |s| && s[|s| - |suffix|..] == suffix
  }

  /** The characters of the class `[.!?]`. */
  predicate IsSentenceEnd(c: char) {
    c == '.' || c == '!' || c == '?'
  }

  /** `s` with its leading run of `sep` characters removed. */
  function DropRun(s: string, sep: char -> bool): (r: string)
    ensures |r| <= |s| && r == s[|s| - |r|..]
    ensures r == [] || !sep(r[0])
    ensures forall i | 0 <= i < |s| - |r| :: sep(s[i])
    ensures s != [] && sep(s[0]) ==> |r| < |s|
    decreases |s|
  {
    if s != [] && sep(s[0]) then DropRun(s[1..], sep) else s
  }

  /** `s.split(re)` where `re` matches a maximal run of `sep` characters
      (`/\s+/`, `/[.!?]+/`): the pieces between the runs, with an empty piece
      before a leading run and after a trailing one, and `[""]` for `""`. */
  function SplitRuns(s: string, sep: char -> bool): (parts: seq<string>)
    ensures |parts| >= 1
    decreases |s|
  {
    if s == [] then [""]
    else if sep(s[0]) then [""] + SplitRuns(DropRun(s, sep), sep)
    else
      var rest := SplitRuns(s[1..], sep);
      [[s[0]] + rest[0]] + rest[1..]
  }

  /** `s.split(/\s+/)` */
  function SplitWs(s: string): seq<string> {
    SplitRuns(s, IsWs)
  }

  /** `parts.join(sep)` */
  function JoinWith(parts: seq<string>, sep: string): string {
    if |parts| == 0 then ""
    else if |parts| == 1 then parts[0]
    else parts[0] + sep + JoinWith(parts[1..], sep)
  }

  /** `s.replace(re, c)` with the global flag, where `re` matches a maximal
      run of `sep` characters: every run becomes the single character `c`. */
  function CollapseRuns(s: string, sep: char -> bool, c: char): string
    decreases |s|
  {
    if s == [] then ""
    else if sep(s[0]) then [c] + CollapseRuns(DropRun(s, sep), sep, c)
    else [s[0]] + CollapseRuns(s[1..], sep, c)
  }

  /** `s.trimStart()`, `s.trimEnd()` and `s.trim()` */
  function TrimStart(s: string): string {
    DropRun(s, IsWs)
  }

  function TrimEnd(s: string): (r: string)
    ensures |r| <= |s| && r == s[..|r|]
    ensures r == [] || !IsWs(r[|r| - 1])
    ensures forall i | |r| <= i < |s| :: IsWs(s[i])
  {
    if s != [] && IsWs(s[|s| - 1]) then TrimEnd(s[..|s| - 1]) else s
  }

  function Trim(s: string): string {
    TrimEnd(TrimStart(s))
  }

  /** `parts.filter(Boolean)` on strings: the non-empty ones, in order. */
  function Compact(parts: seq<string>): (r: seq<string>)
    ensures |r| <= |parts|
    ensures forall p :: p in r <==> p in parts && p != ""
  {
    if parts == [] then [] else (if parts[0] == "" then [] else [parts[0]]) + Compact(parts[1..])
  }

  /** Dropping empty strings distributes over concatenation. */
  lemma {:induction false} CompactAppend(a: seq<string>, b: seq<string>)
    ensures Compact(a + b) == Compact(a) + Compact(b)
    decreases |a|
  {
    if a == [] {
      assert a + b == b;
    } else {
      assert (a + b)[0] == a[0];
      assert (a + b)[1..] == a[1..] + b;
      CompactAppend(a[1..], b);
    }
  }

  /** `s.split(from).join(to)` for single characters: every `from` becomes `to`. */
  function ReplaceChar(s: string, from: char, to: char): (r: string)
    ensures |r| == |s|
    ensures forall i | 0 <= i < |s| :: r[i] == (if s[i] == from then to else s[i])
  {
    seq(|s|, i requires 0 <= i < |s| => if s[i] == from then to else s[i])
  }

  /** Every run of `sep` characters in `r` is the single character `c`. */
  predicate RunsCollapsed(r: string, sep: char -> bool, c: char) {
    forall i | 0 <= i < |r| && sep(r[i]) :: r[i] == c && (i + 1 == |r| || !sep(r[i + 1]))
  }

  // ---------------------------------------------------------------------------
  // Lemmas

  /** No piece of a split contains a separator character. */
  lemma {:induction false} SplitRunsAvoid(s: string, sep: char -> bool)
    ensures forall p | p in SplitRuns(s, sep) :: Avoids(p, sep)
    decreases |s|
  {
    if s == [] {
    } else if sep(s[0]) {
      SplitRunsAvoid(DropRun(s, sep), sep);
    } else {
      var rest := SplitRuns(s[1..], sep);
      SplitRunsAvoid(s[1..], sep);
      assert rest[0] in rest;
      forall p | p in SplitRuns(s, sep) ensures Avoids(p, sep) {
        if p == [s[0]] + rest[0] {
        } else {
          assert p in rest[1..];
        }
      }
    }
  }

  lemma JoinCons(x: char, a: string, tail: seq<string>, sp: string)
    ensures JoinWith([[x] + a] + tail, sp) == [x] + JoinWith([a] + tail, sp)
  {
    if tail != [] {
      assert ([[x] + a] + tail)[1..] == tail;
      assert ([a] + tail)[1..] == tail;
    }
  }

  /** Splitting at runs and joining with one character is the same as
      replacing every run by that character. */
  lemma {:induction false} SplitThenJoin(s: string, sep: char -> bool, c: char)
    ensures JoinWith(SplitRuns(s, sep), [c]) == CollapseRuns(s, sep, c)
    decreases |s|
  {
    if s == [] {
    } else if sep(s[0]) {
      var t := DropRun(s, sep);
      SplitThenJoin(t, sep, c);
      var r := SplitRuns(t, sep);
      assert ([""] + r)[1..] == r;
    } else {
      var rest := SplitRuns(s[1..], sep);
      SplitThenJoin(s[1..], sep, c);
      JoinCons(s[0], rest[0], rest[1..], [c]);
      assert [rest[0]] + rest[1..] == rest;
    }
  }

  /** A separator-free prefix glues onto the first piece of what follows. */
  lemma {:induction false} SplitPrefix(w: string, u: string, sep: char -> bool)
    requires Avoids(w, sep)
    ensures SplitRuns(w + u, sep) == [w + SplitRuns(u, sep)[0]] + SplitRuns(u, sep)[1..]
    decreases |w|
  {
    if w == [] {
      SplitPrefixNil(u, sep);
    } else {
      AvoidsTail(w, sep);
      SplitPrefix(w[1..], u, sep);
      SplitPrefixCons(w, u, sep);
    }
  }

  lemma SplitPrefixNil(u: string, sep: char -> bool)
    ensures SplitRuns([] + u, sep) == [[] + SplitRuns(u, sep)[0]] + SplitRuns(u, sep)[1..]
  {
    var p := SplitRuns(u, sep);
    assert [] + u == u;
    assert [] + p[0] == p[0];
    assert [p[0]] + p[1..] == p;
  }

  lemma AvoidsTail(w: string, sep: char -> bool)
    requires w != [] && Avoids(w, sep)
    ensures !sep(w[0]) && Avoids(w[1..], sep)
  {
    var v := w[1..];
    forall i | 0 <= i < |v| ensures !sep(v[i]) { assert v[i] == w[i + 1]; }
  }

  /** The inductive step of `SplitPrefix`. */
  lemma SplitPrefixCons(w: string, u: string, sep: char -> bool)
    requires w != [] && !sep(w[0])
    requires SplitRuns(w[1..] + u, sep) == [w[1..] + SplitRuns(u, sep)[0]] + SplitRuns(u, sep)[1..]
    ensures SplitRuns(w + u, sep) == [w + SplitRuns(u, sep)[0]] + SplitRuns(u, sep)[1..]
  {
    ConcatHeadTail(w, u);
    SplitHead(w + u, sep);
    ConcatHeadTail(w, SplitRuns(u, sep)[0]);
  }

  lemma ConcatHeadTail(w: string, u: string)
    requires w != []
    ensures (w + u)[0] == w[0] && (w + u)[1..] == w[1..] + u
    ensures [w[0]] + (w[1..] + u) == w + u
  {
  }

  /** The split of a string starting with a non-separator: its first
      character joins the first piece of the rest's split. */
  lemma SplitHead(s: string, sep: char -> bool)
    requires s != [] && !sep(s[0])
    ensures SplitRuns(s, sep) == [[s[0]] + SplitRuns(s[1..], sep)[0]] + SplitRuns(s[1..], sep)[1..]
  {
  }

  lemma JoinPrefix(parts: seq<string>, sp: string)
    requires |parts| >= 1
    ensures parts[0] <= JoinWith(parts, sp)
  {
  }

  /** Joining separator-free, non-empty pieces with one separator character
      and splitting again gives the pieces back. */
  lemma {:induction false} JoinThenSplit(parts: seq<string>, sep: char -> bool, c: char)
    requires |parts| >= 1 && sep(c)
    requires forall p | p in parts :: p != "" && Avoids(p, sep)
    ensures SplitRuns(JoinWith(parts, [c]), sep) == parts
    decreases |parts|
  {
    var p := parts[0];
    assert p in parts;
    if |parts| == 1 {
      SplitPrefix(p, "", sep);
      assert p + "" == p;
    } else {
      var rest := parts[1..];
      assert forall q | q in rest :: q in parts;
      JoinThenSplit(rest, sep, c);
      assert rest[0] in parts;
      assert !sep(rest[0][0]);
      JoinStep(p, rest, sep, c);
      assert [p] + rest == parts;
    }
  }

  /** The inductive step of `JoinThenSplit`: one more piece in front. */
  lemma JoinStep(p: string, rest: seq<string>, sep: char -> bool, c: char)
    requires sep(c) && Avoids(p, sep)
    requires |rest| >= 1 && rest[0] != "" && !sep(rest[0][0])
    requires SplitRuns(JoinWith(rest, [c]), sep) == rest
    ensures SplitRuns(JoinWith([p] + rest, [c]), sep) == [p] + rest
  {
    var j := JoinWith(rest, [c]);
    JoinPrefix(rest, [c]);
    assert j[0] == rest[0][0];
    SepThenSplit(j, sep, c);
    var x := SplitRuns([c] + j, sep);
    assert x[0] == "" && x[1..] == rest;
    SplitPrefix(p, [c] + j, sep);
    assert ([p] + rest)[0] == p && ([p] + rest)[1..] == rest;
    JoinUnfold([p] + rest, [c]);
    assert p + x[0] == p;
  }

  /** Joining two or more pieces puts the separator after the first. */
  lemma JoinUnfold(parts: seq<string>, sp: string)
    requires |parts| >= 2
    ensures JoinWith(parts, sp) == parts[0] + (sp + JoinWith(parts[1..], sp))
  {
  }

  /** One separator before a piece that starts with a non-separator splits
      off an empty first piece. */
  lemma SepThenSplit(j: string, sep: char -> bool, c: char)
    requires sep(c) && j != [] && !sep(j[0])
    ensures SplitRuns([c] + j, sep) == [""] + SplitRuns(j, sep)
  {
    assert ([c] + j)[0] == c && ([c] + j)[1..] == j;
    assert DropRun([c] + j, sep) == DropRun(j, sep) == j;
  }

  /** The output of `CollapseRuns` has every run collapsed. */
  lemma {:induction false} CollapseRunsCollapsed(s: string, sep: char -> bool, c: char)
    requires sep(c)
    ensures RunsCollapsed(CollapseRuns(s, sep, c), sep, c)
    ensures s == [] || sep(s[0]) || CollapseRuns(s, sep, c)[0] == s[0]
    decreases |s|
  {
    if s == [] {
    } else if sep(s[0]) {
      var t := DropRun(s, sep);
      CollapseRunsCollapsed(t, sep, c);
      var r := CollapseRuns(t, sep, c);
      assert r == [] || !sep(r[0]);
      ConsCollapsed(c, r, sep, c);
    } else {
      CollapseRunsCollapsed(s[1..], sep, c);
      ConsCollapsed(s[0], CollapseRuns(s[1..], sep, c), sep, c);
    }
  }

  /** One character in front keeps runs collapsed when it is not a
      separator, or is `c` followed by no separator. */
  lemma ConsCollapsed(x: char, r: string, sep: char -> bool, c: char)
    requires RunsCollapsed(r, sep, c)
    requires sep(x) ==> x == c && (r == [] || !sep(r[0]))
    ensures RunsCollapsed([x] + r, sep, c)
  {
    var xr := [x] + r;
    forall i | 0 <= i < |xr| && sep(xr[i])
      ensures xr[i] == c && (i + 1 == |xr| || !sep(xr[i + 1]))
    {
      if i > 0 {
        assert xr[i] == r[i - 1];
        assert i + 1 < |xr| ==> xr[i + 1] == r[i];
      }
    }
  }

  /** Collapsing runs keeps the string blank exactly when it was blank. */
  lemma {:induction false} CollapseBlank(s: string)
    ensures IsBlank(CollapseRuns(s, IsWs, ' ')) <==> IsBlank(s)
    decreases |s|
  {
    if s == [] {
    } else if IsWs(s[0]) {
      var t := DropRun(s, IsWs);
      CollapseBlank(t);
      var r := CollapseRuns(t, IsWs, ' ');
      assert CollapseRuns(s, IsWs, ' ') == [' '] + r;
      assert IsBlank([' '] + r) <==> IsBlank(r) by {
        assert forall i | 0 <= i < |r| :: ([' '] + r)[i + 1] == r[i];
      }
      assert IsBlank(s) <==> IsBlank(t) by {
        if IsBlank(t) {
          forall i | 0 <= i < |s| ensures IsWs(s[i]) {
            if i >= |s| - |t| { assert s[i] == t[i - (|s| - |t|)]; }
          }
        }
        if IsBlank(s) {
          forall i | 0 <= i < |t| ensures IsWs(t[i]) { assert t[i] == s[i + (|s| - |t|)]; }
        }
      }
    } else {
      assert !IsBlank(s);
      assert CollapseRuns(s, IsWs, ' ')[0] == s[0];
    }
  }

  /** `trim()` yields a slice of its input without whitespace at either end. */
  lemma TrimSlice(s: string)
    ensures var a := |s| - |TrimStart(s)|;
            a + |Trim(s)| <= |s| && Trim(s) == s[a..a + |Trim(s)|]
    ensures Trim(s) == [] || (!IsWs(Trim(s)[0]) && !IsWs(Trim(s)[|Trim(s)| - 1]))
  {
    var t := TrimStart(s);
    var r := TrimEnd(t);
    var a := |s| - |t|;
    assert t == s[a..];
    assert r == t[..|r|];
    assert r == s[a..a + |r|];
    if r != [] {
      assert r[0] == t[0];
      assert t == [] || !IsWs(t[0]);
    }
  }

  /** `trim()` gives the empty string exactly for blank input. */
  lemma TrimEmptyIffBlank(s: string)
    ensures Trim(s) == "" <==> IsBlank(s)
  {
    var t := TrimStart(s);
    if Trim(s) == "" {
      assert t == [];
    }
  }

  /** A slice of a string whose runs are collapsed has its runs collapsed. */
  lemma SliceCollapsed(r: string, a: nat, b: nat, sep: char -> bool, c: char)
    requires a <= b <= |r| && RunsCollapsed(r, sep, c)
    ensures RunsCollapsed(r[a..b], sep, c)
  {
    var t := r[a..b];
    forall i | 0 <= i < |t| && sep(t[i]) ensures t[i] == c && (i + 1 == |t| || !sep(t[i + 1])) {
      assert t[i] == r[a + i];
      if i + 1 < |t| { assert t[i + 1] == r[a + i + 1]; }
    }
  }

  /** No piece of a split is longer than the string split. */
  lemma {:induction false} SplitRunsShorter(s: string, sep: char -> bool)
    ensures forall p | p in SplitRuns(s, sep) :: |p| <= |s|
    decreases |s|
  {
    if s == [] {
    } else if sep(s[0]) {
      SplitRunsShorter(DropRun(s, sep), sep);
    } else {
      var rest := SplitRuns(s[1..], sep);
      SplitRunsShorter(s[1..], sep);
      assert rest[0] in rest;
      forall p | p in SplitRuns(s, sep) ensures |p| <= |s| {
        if p != [s[0]] + rest[0] {
          assert p in rest[1..];
        }
      }
    }
  }

  /** A join introduces no character that neither the pieces nor the
      separator hold. */
  lemma {:induction false} JoinAvoids(parts: seq<string>, sp: string, p: char -> bool)
    requires Avoids(sp, p)
    requires forall q | q in parts :: Avoids(q, p)
    ensures Avoids(JoinWith(parts, sp), p)
    decreases |parts|
  {
    if |parts| > 1 {
      JoinAvoids(parts[1..], sp, p);
      var t := JoinWith(parts[1..], sp);
      assert parts[0] in parts;
      forall i | 0 <= i < |parts[0] + sp + t| ensures !p((parts[0] + sp + t)[i]) {
        if i < |parts[0]| {
        } else if i < |parts[0]| + |sp| {
          assert (parts[0] + sp + t)[i] == sp[i - |parts[0]|];
        } else {
          assert (parts[0] + sp + t)[i] == t[i - |parts[0]| - |sp|];
        }
      }
    } else if |parts| == 1 {
      assert parts[0] in parts;
    }
  }

  /** `s.split(/(?<=[.!?])\s+/)`: the separators are the maximal white-space
      runs that follow a sentence end; `afterEnd` says whether the character
      before `s` was one. */
  function SplitAfterEndFrom(s: string, afterEnd: bool): (parts: seq<string>)
    ensures |parts| >= 1
    decreases |s|
  {
    if s == [] then [""]
    else if afterEnd && IsWs(s[0]) then [""] + SplitAfterEndFrom(DropRun(s, IsWs), false)
    else
      var rest := SplitAfterEndFrom(s[1..], IsSentenceEnd(s[0]));
      [[s[0]] + rest[0]] + rest[1..]
  }

  function SplitAfterSentenceEnd(s: string): seq<string> {
    SplitAfterEndFrom(s, false)
  }

  /** No sentence end followed by white space lies inside a piece. */
  predicate NoEndThenWs(p: string) {
    forall i | 0 <= i < |p| - 1 :: !(IsSentenceEnd(p[i]) && IsWs(p[i + 1]))
  }

  /** Every piece of the split is free of a sentence end followed by white
      space, and the first piece does not start with white space when the
      split starts right after a sentence end. */
  lemma {:induction false} SplitAfterEndPieces(s: string, afterEnd: bool)
    ensures var parts := SplitAfterEndFrom(s, afterEnd);
      && (forall p | p in parts :: NoEndThenWs(p))
      && (afterEnd && parts[0] != [] ==> !IsWs(parts[0][0]))
    decreases |s|
  {
    var parts := SplitAfterEndFrom(s, afterEnd);
    if s == [] {
    } else if afterEnd && IsWs(s[0]) {
      SplitAfterEndPieces(DropRun(s, IsWs), false);
      assert parts[1..] == SplitAfterEndFrom(DropRun(s, IsWs), false);
      forall p | p in parts ensures NoEndThenWs(p) {
        if p != "" {
          assert p in parts[1..];
        }
      }
    } else {
      var rest := SplitAfterEndFrom(s[1..], IsSentenceEnd(s[0]));
      SplitAfterEndPieces(s[1..], IsSentenceEnd(s[0]));
      var head := [s[0]] + rest[0];
      assert rest[0] in rest;
      assert IsSentenceEnd(s[0]) && rest[0] != [] ==> !IsWs(rest[0][0]);
      forall i | 0 <= i < |head| - 1 ensures !(IsSentenceEnd(head[i]) && IsWs(head[i + 1])) {
        if i > 0 {
          assert head[i] == rest[0][i - 1] && head[i + 1] == rest[0][i];
          assert NoEndThenWs(rest[0]);
          assert !(IsSentenceEnd(head[i]) && IsWs(head[i + 1]));
        } else {
          assert head[0] == s[0] && head[1] == rest[0][0];
          assert !(IsSentenceEnd(head[i]) && IsWs(head[i + 1]));
        }
      }
      forall p | p in parts ensures NoEndThenWs(p) {
        if p != head {
          assert p in rest[1..];
        }
      }
    }
  }

  /** `s` with every white-space run that follows a sentence end removed;
      `afterEnd` says whether the character before `s` was a sentence end. */
  function DropRunsAfterEnd(s: string, afterEnd: bool): (r: string)
    ensures |r| <= |s|
    decreases |s|
  {
    if s == [] then []
    else if afterEnd && IsWs(s[0]) then DropRunsAfterEnd(DropRun(s, IsWs), false)
    else [s[0]] + DropRunsAfterEnd(s[1..], IsSentenceEnd(s[0]))
  }

  /** Read one after another, the pieces of the sentence split are the text
      without the separating runs: nothing else is lost, repeated or
      reordered. */
  lemma {:induction false} SplitAfterEndCover(s: string, afterEnd: bool)
    ensures JoinWith(SplitAfterEndFrom(s, afterEnd), "") == DropRunsAfterEnd(s, afterEnd)
    decreases |s|
  {
    if s == [] {
    } else if afterEnd && IsWs(s[0]) {
      var t := DropRun(s, IsWs);
      SplitAfterEndCover(t, false);
      JoinEmptyHead(SplitAfterEndFrom(t, false));
    } else {
      var rest := SplitAfterEndFrom(s[1..], IsSentenceEnd(s[0]));
      SplitAfterEndCover(s[1..], IsSentenceEnd(s[0]));
      JoinCons(s[0], rest[0], rest[1..], "");
      assert [rest[0]] + rest[1..] == rest;
    }
  }

  /** An empty first piece adds nothing to a join without separator. */
  lemma JoinEmptyHead(rest: seq<string>)
    requires |rest| >= 1
    ensures JoinWith([""] + rest, "") == JoinWith(rest, "")
  {
    assert ([""] + rest)[1..] == rest;
  }

  /** Joined without a separator, the pieces read the same with or without
      their empty ones. */
  lemma {:induction false} CompactJoin(parts: seq<string>)
    ensures JoinWith(Compact(parts), "") == JoinWith(parts, "")
    decreases |parts|
  {
    if parts != [] {
      CompactJoin(parts[1..]);
      JoinHeadEmpty(parts[0], parts[1..]);
      assert [parts[0]] + parts[1..] == parts;
      if parts[0] != "" {
        assert Compact(parts) == [parts[0]] + Compact(parts[1..]);
        JoinHeadEmpty(parts[0], Compact(parts[1..]));
      } else {
        assert Compact(parts) == Compact(parts[1..]);
        assert parts[0] + JoinWith(parts[1..], "") == JoinWith(parts[1..], "");
      }
    }
  }

  /** A join without separator is the first piece followed by the rest. */
  lemma JoinHeadEmpty(p: string, rest: seq<string>)
    ensures JoinWith([p] + rest, "") == p + JoinWith(rest, "")
  {
    if rest != [] {
      assert ([p] + rest)[1..] == rest;
    }
  }

  /** Replacing a character distributes over concatenation. */
  lemma ReplaceAppend(a: string, b: string, from: char, to: char)
    ensures ReplaceChar(a + b, from, to) == ReplaceChar(a, from, to) + ReplaceChar(b, from, to)
  {
  }

  /** Concatenation is associative. */
  lemma ConcatAssoc<T>(x: seq<T>, y: seq<T>, z: seq<T>)
    ensures x + (y + z) == (x + y) + z
  {
  }

  /** A string whose last character is not white space is not blank. */
  lemma NotBlankIfLastNotWs(s: string)
    requires |s| > 0 && !IsWs(s[|s| - 1])
    ensures !IsBlank(s)
  {
  }
}
