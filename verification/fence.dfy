/** Cleaning of the model's reply before it is parsed: every match of the
    regular expression ```json\s* is replaced by the empty string, then every
    match of ```\s*, and the result is trimmed. */
module Fence {
  import opened Whitespace

  /** The marker the first replacement deletes. */
  const JsonFence: string := "```json"

  /** The marker the second replacement deletes. */
  const Backticks: string := "```"

  predicate StartsWith(s: string, m: string)
  {
    |m| <= |s| && s[..|m|] == m
  }

  /** `m` occurs somewhere in `s`. */
  predicate Contains(s: string, m: string)
    decreases |s|
  {
    StartsWith(s, m) || (s != [] && Contains(s[1..], m))
  }

  /** Global replacement of the pattern m\s* by the empty string, for a
      literal, non-empty marker `m`: scanning
      from the left, each occurrence of `m` is deleted together with the
      whitespace run that follows it, and the scan resumes after the deleted
      text; every other character is kept in order. */
  function RemoveMarker(s: string, m: string): (r: string)
    requires m != []
    ensures |r| <= |s|
    decreases |s|
  {
    if s == [] then []
    else if StartsWith(s, m) then RemoveMarker(TrimStart(s[|m|..]), m)
    else [s[0]] + RemoveMarker(s[1..], m)
  }

  /** The text handed to the JSON parser. */
  function CleanReply(raw: string): (r: string)
    ensures |r| <= |raw|
  {
    Trim(RemoveMarker(RemoveMarker(raw, JsonFence), Backticks))
  }

  /** The usual shape of a fenced reply: the payload in a ```json code block. */
  function Wrap(payload: string): string
  {
    JsonFence + "\n" + payload + "\n" + Backticks
  }

  // ---------------------------------------------------------------------------
  // Occurrences
  // ---------------------------------------------------------------------------

  lemma {:induction false} ContainsSuffix(s: string, i: nat, m: string)
    requires i <= |s|
    requires Contains(s[i..], m)
    ensures Contains(s, m)
    decreases i
  {
    if i == 0 {
      assert s[0..] == s;
    } else {
      assert s[i..] == s[1..][i - 1..];
      ContainsSuffix(s[1..], i - 1, m);
    }
  }

  lemma {:induction false} ContainsPrefix(s: string, j: nat, m: string)
    requires j <= |s|
    requires Contains(s[..j], m)
    ensures Contains(s, m)
    decreases |s|
  {
    if StartsWith(s[..j], m) {
      assert s[..|m|] == s[..j][..|m|];
    } else {
      assert s[..j][1..] == s[1..][..j - 1];
      ContainsPrefix(s[1..], j - 1, m);
    }
  }

  /** A text free of `m` has no slice that contains `m`. */
  lemma SliceFree(s: string, i: nat, j: nat, m: string)
    requires i <= j <= |s|
    requires !Contains(s, m)
    ensures !Contains(s[i..j], m)
  {
    if Contains(s[i..j], m) {
      assert s[i..j] == s[i..][..j - i];
      ContainsPrefix(s[i..], j - i, m);
      ContainsSuffix(s, i, m);
    }
  }

  lemma {:induction false} TooShortNotContained(s: string, m: string)
    requires |s| < |m|
    ensures !Contains(s, m)
    decreases |s|
  {
    if s != [] {
      TooShortNotContained(s[1..], m);
    }
  }

  /** Every "```json" is also a "```". */
  lemma {:induction false} JsonFenceNeedsBackticks(s: string)
    requires !Contains(s, Backticks)
    ensures !Contains(s, JsonFence)
    decreases |s|
  {
    if s != [] {
      JsonFenceNeedsBackticks(s[1..]);
    }
  }

  // ---------------------------------------------------------------------------
  // RemoveMarker
  // ---------------------------------------------------------------------------

  /** Text without the marker comes back unchanged. */
  lemma {:induction false} RemoveAbsentMarker(s: string, m: string)
    requires m != [] && !Contains(s, m)
    ensures RemoveMarker(s, m) == s
    decreases |s|
  {
    if s != [] {
      RemoveAbsentMarker(s[1..], m);
    }
  }

  /** No occurrence of `m` starts inside `a` when `a` is followed by `b`. */
  predicate NoMatchIn(a: string, b: string, m: string)
    decreases |a|
  {
    a == [] || (!StartsWith(a + b, m) && NoMatchIn(a[1..], b, m))
  }

  /** A prefix in which no occurrence starts is copied through unchanged. */
  lemma {:induction false} KeepPrefix(a: string, b: string, m: string)
    requires m != [] && NoMatchIn(a, b, m)
    ensures RemoveMarker(a + b, m) == a + RemoveMarker(b, m)
    decreases |a|
  {
    if a == [] {
      assert a + b == b;
    } else {
      var s := a + b;
      assert s[0] == a[0] && s[1..] == a[1..] + b;
      KeepPrefix(a[1..], b, m);
      assert RemoveMarker(s, m) == [a[0]] + (a[1..] + RemoveMarker(b, m));
      assert [a[0]] + a[1..] == a;
    }
  }

  /** At an occurrence of `m` where no earlier one starts, the marker and the
      whole whitespace run after it are deleted, and the scan resumes at the
      first character after that run. */
  lemma RemoveAtMatch(a: string, w: string, b: string, m: string)
    requires m != [] && NoMatchIn(a, m + w + b, m)
    requires AllWs(w) && (b == [] || !IsWs(b[0]))
    ensures RemoveMarker(a + (m + w + b), m) == a + RemoveMarker(b, m)
  {
    KeepPrefix(a, m + w + b, m);
    RemoveMatch(m, w, b);
  }

  /** A text that starts with the marker loses it and the whitespace run
      after it. */
  lemma RemoveMatch(m: string, w: string, b: string)
    requires m != [] && AllWs(w) && (b == [] || !IsWs(b[0]))
    ensures RemoveMarker(m + w + b, m) == RemoveMarker(b, m)
  {
    var rest := w + b;
    var s := m + rest;
    assert s == m + w + b;
    assert StartsWith(s, m) by {
      assert s[..|m|] == m;
    }
    assert s[|m|..] == rest;
    TrimStartPastWs(w, b);
  }

  /** Before a character that is not a backtick, a backtick-free text starts
      no occurrence of "```" (nor, therefore, of "```json"). */
  lemma {:induction false} NoMatchBeforeBreak(a: string, c: char, b: string)
    requires !Contains(a, Backticks) && c != '`'
    ensures NoMatchIn(a + [c], b, Backticks)
    ensures NoMatchIn(a + [c], b, JsonFence)
    decreases |a|
  {
    var s := a + [c] + b;
    if |a| >= 3 {
      assert s[..3] == a[..3];
    } else {
      assert s[|a|] == c;
    }
    if a == [] {
      assert (a + [c])[1..] == [];
    } else {
      assert (a + [c])[1..] == a[1..] + [c];
      NoMatchBeforeBreak(a[1..], c, b);
    }
  }

  /** Deleting every "```" leaves no "```": a kept backtick is never followed
      by two more, because the scan would have matched there. */
  lemma {:induction false} RemoveBackticksLeavesNone(s: string)
    ensures !Contains(RemoveMarker(s, Backticks), Backticks)
    ensures var r := RemoveMarker(s, Backticks);
      r != [] && r[0] == '`' ==> s[0] == '`'
    ensures var r := RemoveMarker(s, Backticks);
      |r| >= 2 && r[0] == '`' && r[1] == '`' ==> s[1] == '`'
    decreases |s|
  {
    BackticksAt(s);
    if s != [] && !StartsWith(s, Backticks) {
      var t := s[1..];
      var r' := RemoveMarker(t, Backticks);
      RemoveBackticksLeavesNone(t);
      var r := [s[0]] + r';
      assert r[1..] == r';
      BackticksAt(r);
    } else if s != [] {
      RemoveBackticksLeavesNone(TrimStart(s[3..]));
    }
  }

  /** Starting with "```", character by character. */
  lemma BackticksAt(x: string)
    ensures StartsWith(x, Backticks) <==> |x| >= 3 && x[0] == '`' && x[1] == '`' && x[2] == '`'
  {
    if |x| >= 3 && x[0] == '`' && x[1] == '`' && x[2] == '`' {
      assert x[..3] == Backticks;
    }
  }

  // ---------------------------------------------------------------------------
  // CleanReply
  // ---------------------------------------------------------------------------

  /** The cleaned reply never contains a code-fence delimiter. */
  lemma CleanReplyHasNoFence(raw: string)
    ensures !Contains(CleanReply(raw), Backticks)
  {
    RemoveBackticksLeavesNone(RemoveMarker(raw, JsonFence));
    TrimKeepsFree(RemoveMarker(RemoveMarker(raw, JsonFence), Backticks), Backticks);
  }

  /** Trimming a text free of `m` leaves it free of `m`. */
  lemma TrimKeepsFree(u: string, m: string)
    requires !Contains(u, m)
    ensures !Contains(Trim(u), m)
  {
    var k := |u| - |TrimStart(u)|;
    var r := Trim(u);
    SliceFree(u, k, k + |r|, m);
  }

  /** A reply without any "```" is only trimmed. */
  lemma CleanUnfenced(raw: string)
    requires !Contains(raw, Backticks)
    ensures CleanReply(raw) == Trim(raw)
  {
    JsonFenceNeedsBackticks(raw);
    RemoveAbsentMarker(raw, JsonFence);
    RemoveAbsentMarker(raw, Backticks);
  }

  /** Cleaning is idempotent. */
  lemma CleanReplyIdempotent(raw: string)
    ensures CleanReply(CleanReply(raw)) == CleanReply(raw)
  {
    CleanReplyHasNoFence(raw);
    CleanUnfenced(CleanReply(raw));
    TrimIdempotent(RemoveMarker(RemoveMarker(raw, JsonFence), Backticks));
  }

  /** The first replacement deletes the opening "```json" and the whitespace
      after it. */
  lemma WrapOpening(p: string)
    ensures RemoveMarker(Wrap(p), JsonFence)
         == RemoveMarker(TrimStart(p + ("\n" + Backticks)), JsonFence)
  {
    NewlineIsWsBacktickIsNot();
    var rest := p + ("\n" + Backticks);
    var tail := "\n" + rest;
    var w := Wrap(p);
    assert w == JsonFence + tail;
    assert w[..7] == JsonFence && w[7..] == tail;
    assert tail[1..] == rest;
  }

  lemma RemoveLoneBackticks()
    ensures RemoveMarker(Backticks, Backticks) == []
  {
    assert StartsWith(Backticks, Backticks);
    assert Backticks[3..] == [];
    assert TrimStart([]) == [];
    assert RemoveMarker([], Backticks) == [];
  }

  /** The closing line, less its newline. */
  lemma ClosingLine()
    ensures TrimStart("\n" + Backticks) == Backticks
  {
    NewlineIsWsBacktickIsNot();
    var c := "\n" + Backticks;
    assert c[0] == '\n' && c[1..] == Backticks;
    assert !IsWs(Backticks[0]);
  }

  lemma CleanWrappedBlank(p: string)
    requires TrimStart(p) == []
    ensures CleanReply(Wrap(p)) == []
  {
    WrapOpening(p);
    TrimStartConcat(p, "\n" + Backticks);
    ClosingLine();
    TooShortNotContained(Backticks, JsonFence);
    RemoveAbsentMarker(Backticks, JsonFence);
    assert RemoveMarker(Wrap(p), JsonFence) == Backticks;
    RemoveLoneBackticks();
  }

  /** With a backtick-free payload, the first replacement leaves the payload
      (less its leading whitespace) followed by the closing line. */
  lemma WrapFirstPass(p: string)
    requires TrimStart(p) != [] && !Contains(TrimStart(p), Backticks)
    ensures RemoveMarker(Wrap(p), JsonFence) == TrimStart(p) + "\n" + Backticks
  {
    WrapOpening(p);
    TrimStartConcat(p, "\n" + Backticks);
    assert TrimStart(p) + ("\n" + Backticks) == TrimStart(p) + "\n" + Backticks;
    KeepBeforeClosing(TrimStart(p));
  }

  lemma KeepBeforeClosing(q: string)
    requires !Contains(q, Backticks)
    ensures RemoveMarker(q + "\n" + Backticks, JsonFence) == q + "\n" + Backticks
  {
    NoMatchBeforeBreak(q, '\n', Backticks);
    KeepPrefix(q + "\n", Backticks, JsonFence);
    TooShortNotContained(Backticks, JsonFence);
    RemoveAbsentMarker(Backticks, JsonFence);
  }

  /** The second replacement then deletes only the closing "```". */
  lemma WrapSecondPass(q: string)
    requires !Contains(q, Backticks)
    ensures RemoveMarker(q + "\n" + Backticks, Backticks) == q + "\n"
  {
    var a := q + "\n";
    NoMatchBeforeBreak(q, '\n', Backticks);
    KeepPrefix(a, Backticks, Backticks);
    RemoveLoneBackticks();
    assert a + [] == a;
  }

  lemma TrimNewlineAfter(q: string)
    requires q != [] && !IsWs(q[0])
    ensures Trim(q + "\n") == TrimEnd(q)
  {
    NewlineIsWsBacktickIsNot();
    var a := q + "\n";
    assert TrimStart(a) == a;
    assert a[..|a| - 1] == q;
  }

  lemma CleanWrappedText(p: string)
    requires TrimStart(p) != [] && !Contains(TrimStart(p), Backticks)
    ensures CleanReply(Wrap(p)) == TrimEnd(TrimStart(p))
  {
    WrapFirstPass(p);
    WrapSecondPass(TrimStart(p));
    TrimNewlineAfter(TrimStart(p));
  }

  /** Fencing a payload in a ```json block does not change what is parsed. */
  lemma CleanWrapped(p: string)
    requires !Contains(p, Backticks)
    ensures CleanReply(Wrap(p)) == CleanReply(p)
  {
    CleanUnfenced(p);
    CleanWrappedTrims(p);
  }

  lemma CleanWrappedTrims(p: string)
    requires !Contains(p, Backticks)
    ensures CleanReply(Wrap(p)) == Trim(p)
  {
    var q := TrimStart(p);
    assert Trim(p) == TrimEnd(q);
    if q == [] {
      CleanWrappedBlank(p);
    } else {
      TrimStartKeepsFree(p, Backticks);
      CleanWrappedText(p);
    }
  }

  /** Dropping leading whitespace from a text free of `m` leaves it free of
      `m`. */
  lemma TrimStartKeepsFree(p: string, m: string)
    requires !Contains(p, m)
    ensures !Contains(TrimStart(p), m)
  {
    var q := TrimStart(p);
    SliceFree(p, |p| - |q|, |p|, m);
    assert p[|p| - |q|..|p|] == q;
  }
}
