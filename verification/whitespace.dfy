/** Whitespace handling of analyzeTextAction: `String.prototype.trim` and the
    word count `text.split(/\s+/).filter(Boolean).length`, with a reference
    definition of "number of maximal non-whitespace runs" and the lemmas that
    connect the two. */
module Whitespace {

  /** The ECMAScript WhiteSpace and LineTerminator code points: the one set that
      both `trim` and the regular-expression class `\s` use. The proofs about
      trimming and word counting hold for any set of characters; the proofs
      about code fences rest on two members of it, stated by
      `NewlineIsWsBacktickIsNot`. */
  predicate IsWs(c: char)
  {
    var n := c as int;
    || 9 <= n <= 13
    || n == 0x20 || n == 0xA0 || n == 0x1680
    || 0x2000 <= n <= 0x200A
    || n == 0x2028 || n == 0x2029 || n == 0x202F || n == 0x205F
    || n == 0x3000 || n == 0xFEFF
  }

  /** A line feed is whitespace and a backtick is not. */
  lemma NewlineIsWsBacktickIsNot()
    ensures IsWs('\n') && !IsWs('`')
  {
  }

  predicate AllWs(s: string)
  {
    forall i :: 0 <= i < |s| ==> IsWs(s[i])
  }

  predicate NoWs(s: string)
  {
    forall i :: 0 <= i < |s| ==> !IsWs(s[i])
  }

  // ---------------------------------------------------------------------------
  // trim
  // ---------------------------------------------------------------------------

  /** Drops the leading whitespace: the result is the suffix of `s` that starts
      at its first non-whitespace character (`TrimStartDropsWs` shows that
      everything before it is whitespace). */
  function TrimStart(s: string): (r: string)
    ensures |r| <= |s| && r == s[|s| - |r|..]
    ensures r == [] || !IsWs(r[0])
  {
    if s != [] && IsWs(s[0]) then TrimStart(s[1..]) else s
  }

  /** Drops the trailing whitespace: the result is the prefix of `s` that ends
      at its last non-whitespace character (`TrimEndDropsWs` shows that
      everything after it is whitespace). */
  function TrimEnd(s: string): (r: string)
    ensures |r| <= |s| && r == s[..|r|]
    ensures r == [] || !IsWs(r[|r| - 1])
  {
    if s != [] && IsWs(s[|s| - 1]) then TrimEnd(s[..|s| - 1]) else s
  }

  lemma {:induction false} TrimStartDropsWs(s: string)
    ensures AllWs(s[..|s| - |TrimStart(s)|])
    decreases |s|
  {
    if s != [] && IsWs(s[0]) {
      var t := s[1..];
      var n := |t| - |TrimStart(t)|;
      var dropped := s[..n + 1];
      TrimStartDropsWs(t);
      assert |s| - |TrimStart(s)| == n + 1;
      forall i | 0 <= i < |dropped|
        ensures IsWs(dropped[i])
      {
        if i > 0 {
          assert dropped[i] == t[..n][i - 1];
        }
      }
    }
  }

  lemma {:induction false} TrimEndDropsWs(s: string)
    ensures AllWs(s[|TrimEnd(s)|..])
    decreases |s|
  {
    if s != [] && IsWs(s[|s| - 1]) {
      var t := s[..|s| - 1];
      var r := TrimEnd(t);
      TrimEndDropsWs(t);
      assert TrimEnd(s) == r;
      AllWsConcat(t[|r|..], [s[|s| - 1]]);
      assert s[|r|..] == t[|r|..] + [s[|s| - 1]];
    }
  }

  /** Leading whitespace of a concatenation: the first part's, and the
      second part's too when the first is all whitespace. */
  lemma {:induction false} TrimStartConcat(a: string, b: string)
    ensures TrimStart(a + b) == if TrimStart(a) == [] then TrimStart(b) else TrimStart(a) + b
    decreases |a|
  {
    if a == [] {
      assert a + b == b;
    } else if IsWs(a[0]) {
      assert (a + b)[1..] == a[1..] + b;
      TrimStartConcat(a[1..], b);
    }
  }

  /** A whitespace run in front of a text that does not start with
      whitespace is exactly what the leading trim removes. */
  lemma {:induction false} TrimStartPastWs(ws: string, b: string)
    requires AllWs(ws) && (b == [] || !IsWs(b[0]))
    ensures TrimStart(ws + b) == b
    decreases |ws|
  {
    if ws == [] {
      assert ws + b == b;
    } else {
      assert (ws + b)[0] == ws[0] && (ws + b)[1..] == ws[1..] + b;
      assert AllWs(ws[1..]) by {
        forall i | 0 <= i < |ws[1..]|
          ensures IsWs(ws[1..][i])
        {
          assert ws[1..][i] == ws[i + 1];
        }
      }
      TrimStartPastWs(ws[1..], b);
    }
  }

  /** `s.trim()`: the slice `s[k..k + |r|]` that remains once the whitespace
      on both ends is removed; it neither starts nor ends with whitespace.
      `TrimRemovesOnlyWs` shows that nothing but whitespace is removed. */
  function Trim(s: string): (r: string)
    ensures var k := |s| - |TrimStart(s)|; k + |r| <= |s| && r == s[k..k + |r|]
    ensures r == [] || (!IsWs(r[0]) && !IsWs(r[|r| - 1]))
  {
    var t := TrimStart(s);
    var r := TrimEnd(t);
    TrimEndKeepsStart(t);
    SuffixSlices(s, |s| - |t|, |r|);
    r
  }

  /** Trimming the end of a text that does not start with whitespace leaves a
      text that does not either. */
  lemma TrimEndKeepsStart(t: string)
    requires t == [] || !IsWs(t[0])
    ensures TrimEnd(t) == [] || !IsWs(TrimEnd(t)[0])
  {
    var r := TrimEnd(t);
    if r != [] {
      assert r[0] == t[..|r|][0];
    }
  }

  lemma SuffixSlices(s: string, k: nat, n: nat)
    requires k + n <= |s|
    ensures s[k..][..n] == s[k..k + n]
    ensures s[k..][n..] == s[k + n..]
  {
  }

  /** `trim` removes whitespace only, from both ends. */
  lemma TrimRemovesOnlyWs(s: string)
    ensures var k := |s| - |TrimStart(s)|;
      && AllWs(s[..k])
      && AllWs(s[k + |Trim(s)|..])
  {
    TrimStartDropsWs(s);
    TrimDropsWsAtEnd(s);
  }

  lemma TrimDropsWsAtEnd(s: string)
    ensures AllWs(s[|s| - |TrimStart(s)| + |Trim(s)|..])
  {
    var t := TrimStart(s);
    var r := TrimEnd(t);
    var k := |s| - |t|;
    TrimEndDropsWs(t);
    assert r == Trim(s);
    assert t[|r|..] == s[k + |r|..];
  }

  /** `trim` gives the empty string exactly when the text is all whitespace. */
  lemma TrimEmptyIffAllWs(s: string)
    ensures Trim(s) == [] <==> AllWs(s)
  {
    var t := TrimStart(s);
    var k := |s| - |t|;
    if Trim(s) == [] {
      TrimRemovesOnlyWs(s);
      assert s[k + 0..] == t;
      AllWsConcat(s[..k], t);
      assert s == s[..k] + t;
    } else {
      assert Trim(s)[0] == s[k];
    }
  }

  lemma AllWsConcat(a: string, b: string)
    requires AllWs(a) && AllWs(b)
    ensures AllWs(a + b)
  {
    forall i | 0 <= i < |a + b|
      ensures IsWs((a + b)[i])
    {
      if i < |a| {
        assert (a + b)[i] == a[i];
      } else {
        assert (a + b)[i] == b[i - |a|];
      }
    }
  }

  /** Trimming twice is trimming once. */
  lemma TrimIdempotent(s: string)
    ensures Trim(Trim(s)) == Trim(s)
  {
    var r := Trim(s);
    assert TrimStart(r) == r;
    assert TrimEnd(r) == r;
  }

  // ---------------------------------------------------------------------------
  // text.split(/\s+/).filter(Boolean).length
  // ---------------------------------------------------------------------------

  /** `s.split(/\s+/)` as the RegExp split algorithm of ECMAScript computes it:
      each maximal whitespace run separates two pieces, so a leading or a
      trailing run yields an empty piece and the empty string yields `[""]`. */
  function SplitWs(s: string): (pieces: seq<string>)
    ensures |pieces| >= 1
    ensures forall i :: 0 <= i < |pieces| ==> NoWs(pieces[i])
    ensures pieces[0] == [] <==> (s == [] || IsWs(s[0]))
    decreases |s|
  {
    if s == [] then
      [""]
    else if IsWs(s[0]) then
      var t := TrimStart(s);
      assert |t| == |s| ==> t == s;
      [""] + SplitWs(t)
    else
      var rest := SplitWs(s[1..]);
      [[s[0]] + rest[0]] + rest[1..]
  }

  /** `pieces.filter(Boolean)`: keeps the non-empty strings, in order. */
  function NonEmpty(pieces: seq<string>): (kept: seq<string>)
    ensures |kept| <= |pieces|
    ensures forall i :: 0 <= i < |kept| ==> kept[i] != [] && kept[i] in pieces
    ensures forall i :: 0 <= i < |pieces| && pieces[i] != [] ==> pieces[i] in kept
  {
    if pieces == [] then
      []
    else
      var rest := NonEmpty(pieces[1..]);
      assert forall i :: 1 <= i < |pieces| ==> pieces[i] == pieces[1..][i - 1];
      if pieces[0] == [] then rest else [pieces[0]] + rest
  }

  /** `filter` distributes over concatenation: it keeps, in order and with
      every repetition, what it keeps from each part. */
  lemma {:induction false} NonEmptyConcat(a: seq<string>, b: seq<string>)
    ensures NonEmpty(a + b) == NonEmpty(a) + NonEmpty(b)
    decreases |a|
  {
    if a == [] {
      assert a + b == b;
    } else {
      assert (a + b)[0] == a[0] && (a + b)[1..] == a[1..] + b;
      NonEmptyConcat(a[1..], b);
    }
  }

  /** On one piece, `filter(Boolean)` keeps it exactly when it is non-empty. */
  lemma NonEmptySingleton(x: string)
    ensures NonEmpty([x]) == if x == [] then [] else [x]
  {
    assert [x][1..] == [];
  }

  /** The words of `s` as the action computes them: non-empty and free of
      whitespace. */
  function Tokens(s: string): (words: seq<string>)
    ensures forall i :: 0 <= i < |words| ==> words[i] != [] && NoWs(words[i])
  {
    NonEmpty(SplitWs(s))
  }

  /** The word count the action reports for an (already trimmed) text. */
  function WordCount(s: string): nat
  {
    |Tokens(s)|
  }

  // ---------------------------------------------------------------------------
  // Reference definitions
  // ---------------------------------------------------------------------------

  /** Position `i` starts a maximal non-whitespace run of `s`. */
  predicate IsRunStart(s: string, i: int)
  {
    0 <= i < |s| && !IsWs(s[i]) && (i == 0 || IsWs(s[i - 1]))
  }

  /** The number of maximal non-whitespace runs of `s`: the number of
      positions that start one. */
  function RunCount(s: string): nat
  {
    if s == [] then 0
    else RunCount(s[..|s| - 1]) + (if IsRunStart(s, |s| - 1) then 1 else 0)
  }

  /** The non-whitespace characters of `s`, in order. */
  function NonWsChars(s: string): string
  {
    if s == [] then []
    else (if IsWs(s[0]) then [] else [s[0]]) + NonWsChars(s[1..])
  }

  /** The concatenation of a list of strings. */
  function Concat(pieces: seq<string>): string
  {
    if pieces == [] then [] else pieces[0] + Concat(pieces[1..])
  }

  // ---------------------------------------------------------------------------
  // Lemmas: the word count is the run count
  // ---------------------------------------------------------------------------

  /** Putting a character in front of `t` adds a run when the character is not
      whitespace, unless it merely extends the run that `t` starts with. */
  lemma {:induction false} RunCountCons(c: char, t: string)
    ensures RunCount([c] + t) + (if !IsWs(c) && t != [] && !IsWs(t[0]) then 1 else 0)
         == (if IsWs(c) then 0 else 1) + RunCount(t)
    decreases |t|
  {
    var s := [c] + t;
    if t == [] {
      assert s[..0] == [];
    } else {
      var t' := t[..|t| - 1];
      assert s[..|s| - 1] == [c] + t';
      RunCountCons(c, t');
      if t' == [] {
        assert t[..0] == [] && s[..1] == [c];
        assert RunCount(t) == (if IsWs(t[0]) then 0 else 1);
        assert RunCount(s) == (if IsWs(c) then 0 else 1) + (if IsWs(c) && !IsWs(t[0]) then 1 else 0);
      } else {
        assert t'[0] == t[0];
        assert IsRunStart(s, |s| - 1) == IsRunStart(t, |t| - 1);
      }
    }
  }

  /** Leading whitespace starts no run. */
  lemma {:induction false} RunCountTrimStart(s: string)
    ensures RunCount(TrimStart(s)) == RunCount(s)
    decreases |s|
  {
    if s != [] && IsWs(s[0]) {
      assert s == [s[0]] + s[1..];
      RunCountCons(s[0], s[1..]);
      RunCountTrimStart(s[1..]);
    }
  }

  /** The action's word count is the number of maximal non-whitespace runs. */
  lemma {:induction false} WordCountIsRunCount(s: string)
    ensures WordCount(s) == RunCount(s)
    decreases |s|
  {
    var pieces := SplitWs(s);
    if s == [] {
      assert NonEmpty(pieces) == NonEmpty(pieces[1..]);
    } else if IsWs(s[0]) {
      var t := TrimStart(s);
      assert pieces[1..] == SplitWs(t);
      WordCountIsRunCount(t);
      RunCountTrimStart(s);
    } else {
      var rest := SplitWs(s[1..]);
      assert pieces[1..] == rest[1..];
      WordCountIsRunCount(s[1..]);
      assert |NonEmpty(rest)| == (if rest[0] == [] then 0 else 1) + |NonEmpty(rest[1..])|;
      assert s == [s[0]] + s[1..];
      RunCountCons(s[0], s[1..]);
    }
  }

  lemma {:induction false} RunCountAtMostLength(s: string)
    ensures RunCount(s) <= |s|
    decreases |s|
  {
    if s != [] {
      RunCountAtMostLength(s[..|s| - 1]);
    }
  }

  lemma {:induction false} RunCountPositive(s: string)
    requires s != [] && !IsWs(s[0])
    ensures RunCount(s) >= 1
    decreases |s|
  {
    if |s| > 1 {
      RunCountPositive(s[..|s| - 1]);
    }
  }

  /** On a trimmed, non-empty text the action counts at least one word and
      never more words than characters. */
  lemma WordCountBounds(s: string)
    ensures s != [] && !IsWs(s[0]) ==> 1 <= WordCount(s) <= |s|
  {
    WordCountIsRunCount(s);
    RunCountAtMostLength(s);
    if s != [] && !IsWs(s[0]) {
      RunCountPositive(s);
    }
  }

  // ---------------------------------------------------------------------------
  // Lemmas: the words hold exactly the non-whitespace characters
  // ---------------------------------------------------------------------------

  lemma {:induction false} NonWsTrimStart(s: string)
    ensures NonWsChars(TrimStart(s)) == NonWsChars(s)
    decreases |s|
  {
    if s != [] && IsWs(s[0]) {
      NonWsTrimStart(s[1..]);
    }
  }

  lemma {:induction false} ConcatNonEmpty(pieces: seq<string>)
    ensures Concat(NonEmpty(pieces)) == Concat(pieces)
    decreases |pieces|
  {
    if pieces != [] {
      ConcatNonEmpty(pieces[1..]);
      if pieces[0] != [] {
        assert ([pieces[0]] + NonEmpty(pieces[1..]))[1..] == NonEmpty(pieces[1..]);
      }
    }
  }

  lemma {:induction false} ConcatSplit(s: string)
    ensures Concat(SplitWs(s)) == NonWsChars(s)
    decreases |s|
  {
    var pieces := SplitWs(s);
    if s == [] {
      assert pieces[1..] == [];
    } else if IsWs(s[0]) {
      var t := TrimStart(s);
      assert pieces[1..] == SplitWs(t);
      ConcatSplit(t);
      NonWsTrimStart(s);
    } else {
      var rest := SplitWs(s[1..]);
      assert pieces[1..] == rest[1..];
      ConcatSplit(s[1..]);
      calc {
        Concat(pieces);
        pieces[0] + Concat(rest[1..]);
        ([s[0]] + rest[0]) + Concat(rest[1..]);
        [s[0]] + (rest[0] + Concat(rest[1..]));
        [s[0]] + Concat(rest);
        [s[0]] + NonWsChars(s[1..]);
      }
    }
  }

  /** Every word is a non-empty whitespace-free string, and the words,
      concatenated in order, give back exactly the non-whitespace characters of
      the text: splitting loses and invents no character. */
  lemma TokensAreTheRuns(s: string)
    ensures forall i :: 0 <= i < |Tokens(s)| ==> Tokens(s)[i] != [] && NoWs(Tokens(s)[i])
    ensures Concat(Tokens(s)) == NonWsChars(s)
    ensures |Tokens(s)| == RunCount(s)
  {
    ConcatNonEmpty(SplitWs(s));
    ConcatSplit(s);
    WordCountIsRunCount(s);
  }
}
