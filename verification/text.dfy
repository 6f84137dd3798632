/** The three operations the redaction logic uses on Python strings, on
    `seq<char>`: membership (`pat in s`), the leftmost search behind it
    (`s.find(pat)`), and replace-all (`s.replace(pat, tok)`), together with
    `split`/`join`, which give replace-all an independent description. */
module Text {
  import opened Wrappers

  /** `pat` occurs in `s` starting at index `i`. */
  predicate OccursAt(s: string, pat: string, i: nat) {
    i + |pat| <= |s| && s[i..i + |pat|] == pat
  }

  /** Python's `pat in s`. The empty pattern occurs in every string. */
  predicate Contains(s: string, pat: string) {
    exists i: nat :: i <= |s| && OccursAt(s, pat, i)
  }

  /** The empty pattern occurs in every text, at its front. */
  lemma EmptyOccurs(s: string)
    ensures Contains(s, "")
  {
    assert OccursAt(s, "", 0);
  }

  /** No occurrence of `pat` in `s` starts before index `k`. */
  predicate NoOccurrenceBefore(s: string, pat: string, k: nat) {
    forall j: nat :: j < k ==> !OccursAt(s, pat, j)
  }

  /** Dropping the first character shifts an occurrence one place left. */
  lemma {:induction false} ShiftAt(s: string, pat: string, j: nat)
    requires |s| > 0
    ensures OccursAt(s[1..], pat, j) <==> OccursAt(s, pat, j + 1)
  {
    if j + 1 + |pat| <= |s| {
      assert s[1..][j..j + |pat|] == s[j + 1..j + 1 + |pat|];
    }
  }

  /** `pat` occurs in a non-empty `s` at its front or in its tail. */
  lemma {:induction false} ContainsTail(s: string, pat: string)
    requires |s| > 0
    ensures Contains(s, pat) <==> OccursAt(s, pat, 0) || Contains(s[1..], pat)
  {
    if Contains(s[1..], pat) {
      var j: nat :| j <= |s[1..]| && OccursAt(s[1..], pat, j);
      ShiftAt(s, pat, j);
    }
    if Contains(s, pat) && !OccursAt(s, pat, 0) {
      var i: nat :| i <= |s| && OccursAt(s, pat, i);
      ShiftAt(s, pat, i - 1);
    }
  }

  /** No occurrence starts before `k` in a non-empty `s` exactly when none is
      at its front and none starts before `k - 1` in its tail. */
  lemma {:induction false} NoOccurrenceTail(s: string, pat: string, k: nat)
    requires |s| > 0 && k >= 1
    ensures NoOccurrenceBefore(s, pat, k) <==>
            !OccursAt(s, pat, 0) && NoOccurrenceBefore(s[1..], pat, k - 1)
  {
    forall j: nat | j < k - 1
      ensures OccursAt(s[1..], pat, j) <==> OccursAt(s, pat, j + 1)
    {
      ShiftAt(s, pat, j);
    }
    if !OccursAt(s, pat, 0) && NoOccurrenceBefore(s[1..], pat, k - 1) {
      forall j: nat | 1 <= j < k
        ensures !OccursAt(s, pat, j)
      {
        ShiftAt(s, pat, j - 1);
      }
    }
  }

  /** An occurrence inside a prefix of `s` is an occurrence in `s`. */
  lemma {:induction false} OccursInPrefix(s: string, pat: string, k: nat, j: nat)
    requires k <= |s| && OccursAt(s[..k], pat, j)
    ensures OccursAt(s, pat, j)
  {
    assert s[..k][j..j + |pat|] == s[j..j + |pat|];
  }

  /** The leftmost occurrence of `pat` in `s`, as Python's `s.find(pat)`
      (with `None` for its `-1`). */
  function Find(s: string, pat: string): (r: Option<nat>)
    ensures r.None? <==> !Contains(s, pat)
    ensures r.Some? ==> OccursAt(s, pat, r.value) && NoOccurrenceBefore(s, pat, r.value)
    decreases |s|
  {
    if |s| < |pat| then None
    else if s[..|pat|] == pat then
      assert OccursAt(s, pat, 0);
      Some(0)
    else
      assert !OccursAt(s, pat, 0);
      ContainsTail(s, pat);
      match Find(s[1..], pat)
      case None => None
      case Some(i) =>
        NoOccurrenceTail(s, pat, i + 1);
        ShiftAt(s, pat, i);
        Some(i + 1)
  }

  /** Python's `s.replace(pat, tok)` for a non-empty `pat`: scanning left to
      right, every occurrence that does not overlap an earlier replaced one is
      replaced, and the inserted token is never scanned again. */
  function ReplaceAll(s: string, pat: string, tok: string): (r: string)
    requires pat != ""
    decreases |s|
  {
    if |s| < |pat| then s
    else if s[..|pat|] == pat then tok + ReplaceAll(s[|pat|..], pat, tok)
    else [s[0]] + ReplaceAll(s[1..], pat, tok)
  }

  /** A character that starts no occurrence is copied, and scanning moves on
      by one character. */
  lemma {:induction false} ReplaceStepOver(s: string, pat: string, tok: string)
    requires pat != "" && |s| > 0 && !OccursAt(s, pat, 0)
    ensures ReplaceAll(s, pat, tok) == [s[0]] + ReplaceAll(s[1..], pat, tok)
  {
    if |s| >= |pat| {
      assert s[0..|pat|] == s[..|pat|];
    }
  }

  /** Text before the first possible occurrence is copied unchanged, and
      replacement resumes where it stops. */
  lemma {:induction false} ReplaceSkip(s: string, pat: string, tok: string, k: nat)
    requires pat != "" && k <= |s| && NoOccurrenceBefore(s, pat, k)
    ensures ReplaceAll(s, pat, tok) == s[..k] + ReplaceAll(s[k..], pat, tok)
    decreases k
  {
    if k == 0 {
      assert s[..0] + s[0..] == s;
    } else {
      NoOccurrenceTail(s, pat, k);
      ReplaceStepOver(s, pat, tok);
      var t := s[1..];
      ReplaceSkip(t, pat, tok, k - 1);
      assert t[k - 1..] == s[k..];
      assert [s[0]] + t[..k - 1] == s[..k];
    }
  }

  /** Text in which the pattern does not occur is returned unchanged. */
  lemma {:induction false} ReplaceAbsent(s: string, pat: string, tok: string)
    requires pat != "" && !Contains(s, pat)
    ensures ReplaceAll(s, pat, tok) == s
  {
    ReplaceSkip(s, pat, tok, |s|);
    assert s[..|s|] == s;
  }

  /** An occurrence at the front is replaced by the token, and the token is
      not scanned again. */
  lemma {:induction false} ReplaceAtFront(s: string, pat: string, tok: string)
    requires pat != "" && OccursAt(s, pat, 0)
    ensures ReplaceAll(s, pat, tok) == tok + ReplaceAll(s[|pat|..], pat, tok)
  {
  }

  /** A single occurrence, first in its text, with no other after it: the
      occurrence becomes the token and everything around it is kept. */
  lemma {:induction false} ReplaceOnly(a: string, pat: string, b: string, tok: string)
    requires pat != ""
    requires NoOccurrenceBefore(a + pat + b, pat, |a|) && !Contains(b, pat)
    ensures ReplaceAll(a + pat + b, pat, tok) == a + tok + b
  {
    var s := a + pat + b;
    ReplaceSkip(s, pat, tok, |a|);
    assert s[..|a|] == a;
    assert s[|a|..] == pat + b;
    assert (pat + b)[|pat|..] == b;
    ReplaceAtFront(pat + b, pat, tok);
    ReplaceAbsent(b, pat, tok);
  }

  /** Python's `sep.join(pieces)`. */
  function Join(pieces: seq<string>, sep: string): (r: string)
    decreases |pieces|
  {
    if |pieces| == 0 then ""
    else if |pieces| == 1 then pieces[0]
    else pieces[0] + sep + Join(pieces[1..], sep)
  }

  /** Python's `s.split(sep)` for a non-empty `sep`: the pieces between the
      leftmost non-overlapping occurrences of `sep`. */
  function Split(s: string, sep: string): (pieces: seq<string>)
    requires sep != ""
    ensures |pieces| >= 1
    decreases |s|
  {
    var found := Find(s, sep);
    if found.None? then [s]
    else [s[..found.value]] + Split(s[found.value + |sep|..], sep)
  }

  /** The text before the leftmost occurrence holds no occurrence, and that
      occurrence is the first one in the text up to its end. */
  lemma {:induction false} PieceBeforeFirst(s: string, sep: string, i: nat)
    requires sep != "" && OccursAt(s, sep, i) && NoOccurrenceBefore(s, sep, i)
    ensures !Contains(s[..i], sep)
    ensures NoOccurrenceBefore(s[..i] + sep, sep, i)
  {
    forall j: nat | j <= i && OccursAt(s[..i], sep, j)
      ensures false
    {
      OccursInPrefix(s, sep, i, j);
    }
    var upTo := s[..i + |sep|];
    assert s[..i] + sep == upTo;
    forall j: nat | j < i && OccursAt(upTo, sep, j)
      ensures false
    {
      OccursInPrefix(s, sep, i + |sep|, j);
    }
  }

  /** Joining a piece onto at least one more piece puts the separator between. */
  lemma {:induction false} JoinCons(p: string, rest: seq<string>, sep: string)
    requires |rest| >= 1
    ensures Join([p] + rest, sep) == p + sep + Join(rest, sep)
  {
    assert ([p] + rest)[1..] == rest;
  }

  /** Splitting at a leftmost occurrence `i`: the piece before it, then the
      split of what follows it. */
  lemma {:induction false} SplitAt(s: string, sep: string, i: nat)
    requires sep != "" && Find(s, sep) == Some(i)
    ensures i + |sep| <= |s|
    ensures Split(s, sep) == [s[..i]] + Split(s[i + |sep|..], sep)
  {
    assert OccursAt(s, sep, i);
    var rest := s[i + |sep|..];
    var tail := Split(rest, sep);
    assert Split(s, sep) == [s[..i]] + tail;
  }

  /** Replace-all is splitting at the pattern and joining with the token:
      the text between occurrences is kept, each occurrence becomes the token. */
  lemma {:induction false} ReplaceAllIsSplitJoin(s: string, pat: string, tok: string)
    requires pat != ""
    ensures ReplaceAll(s, pat, tok) == Join(Split(s, pat), tok)
    decreases |s|
  {
    var found := Find(s, pat);
    if found.None? {
      ReplaceAbsent(s, pat, tok);
    } else {
      var i := found.value;
      SplitAt(s, pat, i);
      var rest := s[i + |pat|..];
      ReplaceSkip(s, pat, tok, i);
      assert s[i..][|pat|..] == rest;
      ReplaceAtFront(s[i..], pat, tok);
      ReplaceAllIsSplitJoin(rest, pat, tok);
      JoinCons(s[..i], Split(rest, pat), tok);
    }
  }

  /** Joining the pieces with the separator gives back the text. */
  lemma {:induction false} SplitJoinRoundTrip(s: string, sep: string)
    requires sep != ""
    ensures Join(Split(s, sep), sep) == s
    decreases |s|
  {
    var found := Find(s, sep);
    if found.Some? {
      var i := found.value;
      SplitAt(s, sep, i);
      var rest := s[i + |sep|..];
      SplitJoinRoundTrip(rest, sep);
      JoinCons(s[..i], Split(rest, sep), sep);
      assert s[i..i + |sep|] == sep;
      assert s == s[..i] + s[i..i + |sep|] + rest;
    }
  }

  /** `pieces` cut `s` at leftmost non-overlapping occurrences of `sep`:
      joined with `sep` they give `s`, no piece holds `sep`, and the `sep`
      after each piece is the first occurrence reached when scanning it. */
  ghost predicate IsLeftmostSplit(s: string, sep: string, pieces: seq<string>) {
    && |pieces| >= 1
    && Join(pieces, sep) == s
    && (forall k :: 0 <= k < |pieces| ==> !Contains(pieces[k], sep))
    && (forall k :: 0 <= k < |pieces| - 1 ==>
          NoOccurrenceBefore(pieces[k] + sep, sep, |pieces[k]|))
  }

  /** An occurrence that ends within the first `k` characters is an
      occurrence in that prefix. */
  lemma {:induction false} OccursInPrefixBack(s: string, pat: string, k: nat, j: nat)
    requires k <= |s| && j + |pat| <= k && OccursAt(s, pat, j)
    ensures OccursAt(s[..k], pat, j)
  {
    assert s[..k][j..j + |pat|] == s[j..j + |pat|];
  }

  /** Two occurrences each with none before them are the same occurrence. */
  lemma {:induction false} LeftmostUnique(s: string, pat: string, i: nat, j: nat)
    requires OccursAt(s, pat, i) && NoOccurrenceBefore(s, pat, i)
    requires OccursAt(s, pat, j) && NoOccurrenceBefore(s, pat, j)
    ensures i == j
  {
  }

  /** `Split` produces a leftmost split. */
  lemma {:induction false} SplitIsLeftmost(s: string, sep: string)
    requires sep != ""
    ensures IsLeftmostSplit(s, sep, Split(s, sep))
    decreases |s|
  {
    SplitJoinRoundTrip(s, sep);
    var found := Find(s, sep);
    if found.Some? {
      var i := found.value;
      SplitAt(s, sep, i);
      var rest := s[i + |sep|..];
      SplitIsLeftmost(rest, sep);
      PieceBeforeFirst(s, sep, i);
      var pieces := Split(s, sep);
      assert pieces[0] == s[..i];
      assert forall k :: 1 <= k < |pieces| ==> pieces[k] == Split(rest, sep)[k - 1];
    }
  }

  /** When the separator after `p` is the first occurrence reached, the
      search finds it there, whatever follows. */
  lemma {:induction false} FindAfterPiece(p: string, sep: string, rest: string)
    requires NoOccurrenceBefore(p + sep, sep, |p|)
    ensures Find(p + sep + rest, sep) == Some(|p|)
  {
    var s := p + sep + rest;
    var i := |p|;
    assert s[i..i + |sep|] == sep;
    assert p + sep == s[..i + |sep|];
    forall j: nat | j < i && OccursAt(s, sep, j)
      ensures false
    {
      OccursInPrefixBack(s, sep, i + |sep|, j);
    }
    assert Contains(s, sep) by {
      assert OccursAt(s, sep, i);
    }
    LeftmostUnique(s, sep, Find(s, sep).value, i);
  }

  /** A leftmost split of `s` is unique: it is the one `Split` computes. */
  lemma {:induction false} LeftmostSplitUnique(s: string, sep: string, pieces: seq<string>)
    requires sep != "" && IsLeftmostSplit(s, sep, pieces)
    ensures pieces == Split(s, sep)
    decreases |pieces|
  {
    if |pieces| == 1 {
      assert Find(s, sep).None?;
    } else {
      var tail := pieces[1..];
      var rest := Join(tail, sep);
      LeftmostTail(s, sep, pieces);
      SplitFirstPiece(s, sep, pieces);
      LeftmostSplitUnique(rest, sep, tail);
      assert pieces == [pieces[0]] + tail;
    }
  }

  /** The pieces after the first form a leftmost split of the rest. */
  lemma {:induction false} LeftmostTail(s: string, sep: string, pieces: seq<string>)
    requires sep != "" && IsLeftmostSplit(s, sep, pieces) && |pieces| >= 2
    ensures IsLeftmostSplit(Join(pieces[1..], sep), sep, pieces[1..])
  {
    var tail := pieces[1..];
    assert forall k :: 0 <= k < |tail| ==> tail[k] == pieces[k + 1];
  }

  /** A leftmost split's first piece is the piece `Split` cuts first. */
  lemma {:induction false} SplitFirstPiece(s: string, sep: string, pieces: seq<string>)
    requires sep != "" && IsLeftmostSplit(s, sep, pieces) && |pieces| >= 2
    ensures Split(s, sep) == [pieces[0]] + Split(Join(pieces[1..], sep), sep)
  {
    var p := pieces[0];
    var rest := Join(pieces[1..], sep);
    assert pieces == [p] + pieces[1..];
    JoinCons(p, pieces[1..], sep);
    assert s == p + sep + rest;
    FindAfterPiece(p, sep, rest);
    SplitAt(s, sep, |p|);
    assert s[|p| + |sep|..] == rest;
    assert s[..|p|] == p;
  }

  /** A token as long as the pattern keeps the text's length. */
  lemma {:induction false} ReplaceSameLength(s: string, pat: string, tok: string)
    requires pat != "" && |tok| == |pat|
    ensures |ReplaceAll(s, pat, tok)| == |s|
    decreases |s|
  {
    if |s| < |pat| {
    } else if s[..|pat|] == pat {
      ReplaceSameLength(s[|pat|..], pat, tok);
    } else {
      ReplaceSameLength(s[1..], pat, tok);
    }
  }

  /** Replace-all against its reference description: for the leftmost split
      of `s` at `pat`, the result is those pieces joined with `tok`. */
  lemma {:induction false} ReplaceAllSpec(s: string, pat: string, tok: string, pieces: seq<string>)
    requires pat != "" && IsLeftmostSplit(s, pat, pieces)
    ensures ReplaceAll(s, pat, tok) == Join(pieces, tok)
  {
    LeftmostSplitUnique(s, pat, pieces);
    ReplaceAllIsSplitJoin(s, pat, tok);
  }

  /** Replacing a pattern by itself changes nothing. */
  lemma {:induction false} ReplaceByItself(s: string, pat: string)
    requires pat != ""
    ensures ReplaceAll(s, pat, pat) == s
  {
    ReplaceAllIsSplitJoin(s, pat, pat);
    SplitJoinRoundTrip(s, pat);
  }

  /** A pattern with a character that `s` lacks does not occur in `s`. */
  lemma {:induction false} AbsentChar(s: string, pat: string, m: nat)
    requires m < |pat| && pat[m] !in s
    ensures !Contains(s, pat)
  {
  }

  /** No occurrence starts before `k` when the `m`-th character of the pattern
      is absent from the first `k + m` characters of `s`. */
  lemma {:induction false} NoStartByChar(s: string, pat: string, k: nat, m: nat)
    requires m < |pat| && k + m <= |s| && pat[m] !in s[..k + m]
    ensures NoOccurrenceBefore(s, pat, k)
  {
    forall j: nat | j < k && OccursAt(s, pat, j)
      ensures false
    {
    }
  }

  /** Whether `pat` occurs splits at any index: before it or after it. */
  lemma {:induction false} NotContainsSplit(s: string, pat: string, k: nat)
    requires k <= |s| && NoOccurrenceBefore(s, pat, k) && !Contains(s[k..], pat)
    ensures !Contains(s, pat)
  {
    forall i: nat | k <= i <= |s| && OccursAt(s, pat, i)
      ensures false
    {
      assert s[k..][i - k..i - k + |pat|] == s[i..i + |pat|];
      assert OccursAt(s[k..], pat, i - k);
    }
  }

  /** A pattern that does not occur in `b` and of which no occurrence starts
      in `a`, judged by its `m`-th character, vanishes from `a + b`. */
  lemma {:induction false} NotContainsAppend(a: string, b: string, pat: string, m: nat)
    requires m < |pat| && m <= |b|
    requires pat[m] !in a + b[..m]
    requires !Contains(b, pat)
    ensures !Contains(a + b, pat)
  {
    var s := a + b;
    assert s[..|a| + m] == a + b[..m];
    NoStartByChar(s, pat, |a|, m);
    assert s[|a|..] == b;
    NotContainsSplit(s, pat, |a|);
  }

  /** A value that occurs exactly once, recognised by its `m`-th character,
      is replaced by the token and the text around it is kept. */
  lemma {:induction false} ReplaceUnique(a: string, pat: string, b: string, tok: string, m: nat)
    requires m < |pat|
    requires pat[m] !in a + pat[..m] && pat[m] !in b
    ensures ReplaceAll(a + pat + b, pat, tok) == a + tok + b
  {
    var s := a + pat + b;
    assert s[..|a| + m] == a + pat[..m];
    NoStartByChar(s, pat, |a|, m);
    AbsentChar(b, pat, m);
    ReplaceOnly(a, pat, b, tok);
  }

  /** `ReplaceUnique` with the text grouped to the right. */
  lemma {:induction false} ReplaceUniqueRight(a: string, pat: string, b: string, tok: string, m: nat)
    requires m < |pat|
    requires pat[m] !in a + pat[..m] && pat[m] !in b
    ensures ReplaceAll(a + (pat + b), pat, tok) == a + (tok + b)
  {
    ReplaceUnique(a, pat, b, tok, m);
    assert a + (pat + b) == a + pat + b;
    assert a + (tok + b) == a + tok + b;
  }

  /** `a` and `b` have no character in common. */
  predicate ShareNoChar(a: string, b: string) {
    forall c :: c in a ==> c !in b
  }

  /** An occurrence in `x` is an occurrence in any text that ends with `x`. */
  lemma {:induction false} ContainsAfter(a: string, x: string, v: string)
    requires Contains(x, v)
    ensures Contains(a + x, v)
  {
    var i: nat :| i <= |x| && OccursAt(x, v, i);
    assert (a + x)[|a| + i..|a| + i + |v|] == x[i..i + |v|];
    assert OccursAt(a + x, v, |a| + i);
  }

  /** No occurrence of a pattern starts inside an occurrence of `v` at the
      front when the two share no character. */
  lemma {:induction false} DisjointNotInside(s: string, pat: string, v: string)
    requires pat != "" && ShareNoChar(pat, v) && OccursAt(s, v, 0)
    ensures NoOccurrenceBefore(s, pat, |v|)
  {
    forall j: nat | j < |v|
      ensures !OccursAt(s, pat, j)
    {
      assert s[..|v|][j] == s[j];
      assert s[j] in v;
      assert s[j] !in pat;
      if j + |pat| <= |s| {
        assert s[j..j + |pat|][0] == s[j];
      }
    }
  }

  /** An occurrence of `v` past the front cannot start inside an occurrence
      of a pattern at the front when the two share no character. */
  lemma {:induction false} DisjointAfterPattern(s: string, pat: string, v: string, i: nat)
    requires pat != "" && |pat| <= |s| && s[..|pat|] == pat
    requires ShareNoChar(pat, v) && v != "" && OccursAt(s, v, i)
    ensures i >= |pat| && OccursAt(s[|pat|..], v, i - |pat|)
  {
    assert s[i..i + |v|][0] == s[i];
    assert s[i] in v;
    assert s[i] !in pat;
    forall k | 0 <= k < |pat|
      ensures s[k] in pat
    {
      assert s[..|pat|][k] == s[k];
    }
    assert i >= |pat|;
    assert s[|pat|..][i - |pat|..i - |pat| + |v|] == s[i..i + |v|];
  }

  /** An occurrence of `v` at the front survives replacing a pattern that
      shares no character with it. */
  lemma {:induction false} KeepAtFront(s: string, pat: string, tok: string, v: string)
    requires pat != "" && ShareNoChar(pat, v) && OccursAt(s, v, 0)
    ensures Contains(ReplaceAll(s, pat, tok), v)
  {
    DisjointNotInside(s, pat, v);
    ReplaceSkip(s, pat, tok, |v|);
    var tail := ReplaceAll(s[|v|..], pat, tok);
    ContainsMiddle("", v, tail);
    assert "" + v + tail == s[..|v|] + tail;
  }

  /** Replacing a pattern that shares no character with `v` cannot cut into
      an occurrence of `v`, so `v` still occurs afterwards. */
  lemma {:induction false} ReplaceKeepsDisjoint(s: string, pat: string, tok: string, v: string)
    requires pat != "" && v != "" && ShareNoChar(pat, v) && Contains(s, v)
    ensures Contains(ReplaceAll(s, pat, tok), v)
    decreases |s|
  {
    if OccursAt(s, v, 0) {
      KeepAtFront(s, pat, tok, v);
    } else {
      var i: nat :| i <= |s| && OccursAt(s, v, i);
      if |s| < |pat| {
        assert ReplaceAll(s, pat, tok) == s;
      } else if s[..|pat|] == pat {
        DisjointAfterPattern(s, pat, v, i);
        var rest := s[|pat|..];
        ReplaceKeepsDisjoint(rest, pat, tok, v);
        ContainsAfter(tok, ReplaceAll(rest, pat, tok), v);
      } else {
        ReplaceStepOver(s, pat, tok);
        ShiftAt(s, v, i - 1);
        var rest := s[1..];
        ReplaceKeepsDisjoint(rest, pat, tok, v);
        ContainsAfter([s[0]], ReplaceAll(rest, pat, tok), v);
      }
    }
  }

  /** A string occurs in any text that has it in the middle. */
  lemma {:induction false} ContainsMiddle(a: string, x: string, b: string)
    ensures Contains(a + x + b, x)
  {
    assert (a + x + b)[|a|..|a| + |x|] == x;
    assert OccursAt(a + x + b, x, |a|);
  }
}
