/**
  Splitting a C string the way repeated `strtok`/`strtok_r` calls do:
  every call skips the delimiters in front of it and returns the maximal
  run of non-delimiters that follows, so empty fields never come out.
*/
module Strtok {
  import opened Wrappers

  /** The delimiter strings `parse_input` hands to strtok. */
  const PipeDelims: set<char> := {'|'}
  const BlankDelims: set<char> := {' ', '\t', '\n'}

  /** A token as strtok returns it: non-empty and free of delimiters. */
  predicate IsToken(t: string, delims: set<char>)
  {
    t != [] && forall k :: 0 <= k < |t| ==> t[k] !in delims
  }

  /** Where the run of non-delimiters that starts at `i` ends. */
  function RunEnd(s: string, delims: set<char>, i: nat): (j: nat)
    requires i <= |s|
    ensures i <= j <= |s|
    ensures forall k :: i <= k < j ==> s[k] !in delims
    ensures j == |s| || s[j] in delims
    decreases |s| - i
  {
    if i == |s| || s[i] in delims then i else RunEnd(s, delims, i + 1)
  }

  /** The tokens that successive strtok calls return on `s`, in order. */
  function Split(s: string, delims: set<char>): seq<string>
    decreases |s|
  {
    if s == [] then []
    else if s[0] in delims then Split(s[1..], delims)
    else
      var n := RunEnd(s, delims, 0);
      [s[..n]] + Split(s[n..], delims)
  }

  /** `s` with every delimiter removed. */
  function Strip(s: string, delims: set<char>): string
  {
    if s == [] then [] else (if s[0] in delims then [] else [s[0]]) + Strip(s[1..], delims)
  }

  /** All tokens glued back together. */
  function Concat(ts: seq<string>): string
  {
    if ts == [] then [] else ts[0] + Concat(ts[1..])
  }

  /** Position `j` opens a run: a non-delimiter at the start or right after a delimiter. */
  predicate RunStartAt(s: string, delims: set<char>, j: nat)
    requires j < |s|
  {
    s[j] !in delims && (j == 0 || s[j - 1] in delims)
  }

  /** Number of positions in `s[i..]` that open a run. */
  function RunStartsFrom(s: string, delims: set<char>, i: nat): nat
    requires i <= |s|
    decreases |s| - i
  {
    if i == |s| then 0
    else (if RunStartAt(s, delims, i) then 1 else 0) + RunStartsFrom(s, delims, i + 1)
  }

  // ---------------------------------------------------------------------------
  // How Split unfolds

  lemma {:induction false} RunEndIs(s: string, delims: set<char>, i: nat, j: nat)
    requires i <= j <= |s|
    requires forall k :: i <= k < j ==> s[k] !in delims
    requires j == |s| || s[j] in delims
    ensures RunEnd(s, delims, i) == j
    decreases j - i
  {
    if i < j {
      RunEndIs(s, delims, i + 1, j);
    }
  }

  lemma SplitDropDelim(s: string, delims: set<char>)
    requires s != [] && s[0] in delims
    ensures Split(s, delims) == Split(s[1..], delims)
  {
  }

  /** strtok skips the delimiters in front of a token. */
  lemma {:induction false} SkipLeading(s: string, delims: set<char>, from: nat, i: nat)
    requires from <= i <= |s|
    requires forall k :: from <= k < i ==> s[k] in delims
    ensures Split(s[from..], delims) == Split(s[i..], delims)
    decreases i - from
  {
    if from < i {
      SplitDropDelim(s[from..], delims);
      assert s[from..][1..] == s[from + 1..];
      SkipLeading(s, delims, from + 1, i);
    }
  }

  /** The token strtok finds at `i` when it runs to `j`, and where the next call starts. */
  lemma TokenAt(s: string, delims: set<char>, i: nat, j: nat, next: nat)
    requires i < j <= |s|
    requires forall k :: i <= k < j ==> s[k] !in delims
    requires j == |s| || s[j] in delims
    requires next == if j < |s| then j + 1 else j
    ensures Split(s[i..], delims) == [s[i..j]] + Split(s[next..], delims)
  {
    var u := s[i..];
    RunEndIs(u, delims, 0, j - i);
    assert u[..j - i] == s[i..j];
    assert u[j - i..] == s[j..];
    if j < |s| {
      SplitDropDelim(s[j..], delims);
      assert s[j..][1..] == s[j + 1..];
    }
  }

  /** A non-empty string without delimiters is a single token (a line without `|` is one stage). */
  lemma SplitSingle(s: string, delims: set<char>)
    requires IsToken(s, delims)
    ensures Split(s, delims) == [s]
  {
    TokenAt(s, delims, 0, |s|, |s|);
    assert s[0..] == s[0..|s|] == s;
  }

  /** Only delimiters: no token at all (a line of `|` yields no stage, a blank field no argument). */
  lemma SplitOnlyDelims(s: string, delims: set<char>)
    requires forall k :: 0 <= k < |s| ==> s[k] in delims
    ensures Split(s, delims) == []
  {
    SkipLeading(s, delims, 0, |s|);
    assert s[0..] == s;
  }

  /** Conversely, no token at all means the string holds only delimiters. */
  lemma {:induction false} SplitEmptyOnlyDelims(s: string, delims: set<char>)
    requires Split(s, delims) == []
    ensures forall k :: 0 <= k < |s| ==> s[k] in delims
    decreases |s|
  {
    if s != [] {
      assert s[0] in delims;
      SplitEmptyOnlyDelims(s[1..], delims);
      assert forall k :: 1 <= k < |s| ==> s[k] == s[1..][k - 1];
    }
  }

  // ---------------------------------------------------------------------------
  // Properties of Split

  /** Every token is non-empty and holds no delimiter: no empty field ever comes out. */
  lemma {:induction false} SplitTokens(s: string, delims: set<char>)
    ensures forall k :: 0 <= k < |Split(s, delims)| ==> IsToken(Split(s, delims)[k], delims)
    decreases |s|
  {
    if s == [] {
    } else if s[0] in delims {
      SplitTokens(s[1..], delims);
    } else {
      SplitTokens(s[RunEnd(s, delims, 0)..], delims);
    }
  }

  /** SplitAppend when `a` starts with a delimiter, given the claim for `a[1..]`. */
  lemma AppendAfterDelim(a: string, d: char, b: string, delims: set<char>)
    requires d in delims
    requires a != [] && a[0] in delims
    requires Split(a[1..] + [d] + b, delims) == Split(a[1..], delims) + Split(b, delims)
    ensures Split(a + [d] + b, delims) == Split(a, delims) + Split(b, delims)
  {
    var s := a + [d] + b;
    SplitDropDelim(s, delims);
    assert s[1..] == a[1..] + [d] + b;
  }

  /** The first token of `a + [d] + b` is the first token of `a` when `a` starts with one. */
  lemma FirstRunBeforeDelim(a: string, d: char, b: string, delims: set<char>, n: nat, next: nat)
    requires d in delims
    requires a != [] && a[0] !in delims
    requires n == RunEnd(a, delims, 0)
    requires next == if n < |a| then n + 1 else n
    ensures Split(a + [d] + b, delims) == [a[..n]] + Split((a + [d] + b)[n + 1..], delims)
    ensures Split(a, delims) == [a[..n]] + Split(a[next..], delims)
  {
    var s := a + [d] + b;
    assert forall k :: 0 <= k < |a| ==> s[k] == a[k];
    TokenAt(s, delims, 0, n, n + 1);
    TokenAt(a, delims, 0, n, next);
    assert s[0..] == s && a[0..] == a;
    assert s[..n] == a[..n];
  }

  /** SplitAppend when `a` starts with a token that runs to `n`, given the claim for what follows it. */
  lemma AppendAfterRun(a: string, d: char, b: string, delims: set<char>, n: nat, next: nat)
    requires d in delims
    requires a != [] && a[0] !in delims
    requires n == RunEnd(a, delims, 0)
    requires next == if n < |a| then n + 1 else n
    requires Split(a[next..] + [d] + b, delims) == Split(a[next..], delims) + Split(b, delims)
    ensures Split(a + [d] + b, delims) == Split(a, delims) + Split(b, delims)
  {
    var s := a + [d] + b;
    FirstRunBeforeDelim(a, d, b, delims, n, next);
    assert Split(s[n + 1..], delims) == Split(a[next..], delims) + Split(b, delims) by {
      if n < |a| {
        assert s[n + 1..] == a[next..] + [d] + b;
      } else {
        assert s[n + 1..] == b;
        assert a[next..] == [];
      }
    }
    SharedHead(Split(s, delims), Split(a, delims), a[..n],
      Split(s[n + 1..], delims), Split(a[next..], delims), Split(b, delims));
  }

  /** Two token lists with the same head whose tails differ by a suffix differ by that suffix. */
  lemma SharedHead(whole: seq<string>, left: seq<string>, head: string,
                   wholeTail: seq<string>, leftTail: seq<string>, right: seq<string>)
    requires whole == [head] + wholeTail
    requires left == [head] + leftTail
    requires wholeTail == leftTail + right
    ensures whole == left + right
  {
    assert [head] + (leftTail + right) == ([head] + leftTail) + right;
  }

  /**
    Split distributes over a delimiter: the fields on either side are split
    on their own and nothing is made of the delimiter itself.
  */
  lemma {:induction false} SplitAppend(a: string, d: char, b: string, delims: set<char>)
    requires d in delims
    ensures Split(a + [d] + b, delims) == Split(a, delims) + Split(b, delims)
    decreases |a|
  {
    if a == [] {
      SplitDropDelim([d] + b, delims);
      assert a + [d] + b == [d] + b && ([d] + b)[1..] == b;
    } else if a[0] in delims {
      SplitAppend(a[1..], d, b, delims);
      AppendAfterDelim(a, d, b, delims);
    } else {
      var n := RunEnd(a, delims, 0);
      var next := if n < |a| then n + 1 else n;
      SplitAppend(a[next..], d, b, delims);
      AppendAfterRun(a, d, b, delims, n, next);
    }
  }

  /** Two adjacent delimiters (`||`) give no empty field in between. */
  lemma EmptyFieldDropped(a: string, d: char, b: string, delims: set<char>)
    requires d in delims
    ensures Split(a + [d, d] + b, delims) == Split(a, delims) + Split(b, delims)
  {
    assert a + [d, d] + b == a + [d] + ([d] + b);
    SplitAppend(a, d, [d] + b, delims);
    SplitDropDelim([d] + b, delims);
    assert ([d] + b)[1..] == b;
  }

  /** Delimiters at either end (`|ls|`) give no empty field either. */
  lemma OuterDelimsDropped(s: string, d: char, delims: set<char>)
    requires d in delims
    ensures Split([d] + s + [d], delims) == Split(s, delims)
  {
    SplitAppend([], d, s + [d], delims);
    assert [] + [d] + (s + [d]) == [d] + s + [d];
    SplitAppend(s, d, [], delims);
    assert s + [d] + [] == s + [d];
  }

  lemma {:induction false} ConcatAppend(xs: seq<string>, ys: seq<string>)
    ensures Concat(xs + ys) == Concat(xs) + Concat(ys)
  {
    if xs == [] {
      assert xs + ys == ys;
    } else {
      assert (xs + ys)[1..] == xs[1..] + ys;
      ConcatAppend(xs[1..], ys);
    }
  }

  lemma {:induction false} StripAppend(a: string, b: string, delims: set<char>)
    ensures Strip(a + b, delims) == Strip(a, delims) + Strip(b, delims)
  {
    if a == [] {
      assert a + b == b;
    } else {
      assert (a + b)[1..] == a[1..] + b;
      StripAppend(a[1..], b, delims);
    }
  }

  lemma {:induction false} StripToken(t: string, delims: set<char>)
    requires forall k :: 0 <= k < |t| ==> t[k] !in delims
    ensures Strip(t, delims) == t
  {
    if t != [] {
      StripToken(t[1..], delims);
    }
  }

  /**
    The tokens are the characters of `s` in their original order with
    exactly the delimiters taken out: nothing is lost, added or reordered.
  */
  lemma {:induction false} SplitKeepsText(s: string, delims: set<char>)
    ensures Concat(Split(s, delims)) == Strip(s, delims)
    decreases |s|
  {
    if s == [] {
    } else if s[0] in delims {
      SplitKeepsText(s[1..], delims);
    } else {
      var n := RunEnd(s, delims, 0);
      assert s == s[..n] + s[n..];
      StripAppend(s[..n], s[n..], delims);
      StripToken(s[..n], delims);
      ConcatAppend([s[..n]], Split(s[n..], delims));
      SplitKeepsText(s[n..], delims);
    }
  }

  /** Inside a run no position opens a new one. */
  lemma {:induction false} RunStartsSkipRun(s: string, delims: set<char>, i: nat, j: nat)
    requires 0 < i <= j <= |s|
    requires forall k :: i - 1 <= k < j ==> s[k] !in delims
    ensures RunStartsFrom(s, delims, i) == RunStartsFrom(s, delims, j)
    decreases j - i
  {
    if i < j {
      assert !RunStartAt(s, delims, i);
      RunStartsSkipRun(s, delims, i + 1, j);
    }
  }

  /** A run opened at `i` and closed at `j` counts once; the delimiter at `j` opens nothing. */
  lemma RunStartsOverRun(s: string, delims: set<char>, i: nat, j: nat, next: nat)
    requires i < j <= |s|
    requires i == 0 || s[i - 1] in delims
    requires forall k :: i <= k < j ==> s[k] !in delims
    requires j == |s| || s[j] in delims
    requires next == if j < |s| then j + 1 else j
    ensures RunStartsFrom(s, delims, i) == 1 + RunStartsFrom(s, delims, next)
  {
    assert RunStartAt(s, delims, i);
    RunStartsSkipRun(s, delims, i + 1, j);
    if j < |s| {
      assert !RunStartAt(s, delims, j);
    }
  }

  /** The token count of `s[i..]`, when `i` is at a field boundary, is the number of runs it opens. */
  lemma {:induction false} SplitCountFrom(s: string, delims: set<char>, i: nat)
    requires i <= |s|
    requires i == 0 || s[i - 1] in delims
    ensures |Split(s[i..], delims)| == RunStartsFrom(s, delims, i)
    decreases |s| - i
  {
    if i == |s| {
    } else if s[i] in delims {
      SplitDropDelim(s[i..], delims);
      assert s[i..][1..] == s[i + 1..];
      SplitCountFrom(s, delims, i + 1);
    } else {
      var j := RunEnd(s, delims, i);
      var next := if j < |s| then j + 1 else j;
      TokenAt(s, delims, i, j, next);
      RunStartsOverRun(s, delims, i, j, next);
      if j < |s| {
        SplitCountFrom(s, delims, next);
      }
    }
  }

  /**
    The number of tokens is the number of maximal runs of non-delimiters:
    the positions holding a non-delimiter at the start or after a delimiter.
  */
  lemma TokenCountIsRunCount(s: string, delims: set<char>)
    ensures |Split(s, delims)| == RunStartsFrom(s, delims, 0)
  {
    assert s[0..] == s;
    SplitCountFrom(s, delims, 0);
  }

  /** Moving the next token from the pending tokens to the consumed ones keeps the whole list. */
  lemma Consume<T>(all: seq<T>, done: seq<T>, tok: T, pending: seq<T>, next: seq<T>, rest: seq<T>)
    requires all == done + [tok] + pending
    requires pending == next + rest
    ensures all == (done + [tok]) + next + rest
  {
    assert done + [tok] + (next + rest) == (done + [tok]) + next + rest;
  }

  // ---------------------------------------------------------------------------
  // The scanner

  /**
    One strtok/strtok_r call with the saved position `from`: skip the
    delimiters, then take the run that follows. The new saved position is
    just past the delimiter that ended the token (where strtok wrote its
    NUL), or the end of the string.
  */
  method NextToken(s: string, delims: set<char>, from: nat) returns (tok: Option<string>, next: nat)
    requires from <= |s|
    ensures from <= next <= |s|
    ensures tok.None? <==> forall k :: from <= k < |s| ==> s[k] in delims
    ensures tok.None? ==> next == |s| && Split(s[from..], delims) == []
    ensures tok.Some? ==> from < next && Split(s[from..], delims) == [tok.value] + Split(s[next..], delims)
  {
    var i := from;
    while i < |s| && s[i] in delims
      invariant from <= i <= |s|
      invariant forall k :: from <= k < i ==> s[k] in delims
    {
      i := i + 1;
    }
    SkipLeading(s, delims, from, i);
    if i == |s| {
      return None, |s|;
    }
    var j := i + 1;
    while j < |s| && s[j] !in delims
      invariant i < j <= |s|
      invariant forall k :: i <= k < j ==> s[k] !in delims
    {
      j := j + 1;
    }
    next := if j < |s| then j + 1 else j;
    TokenAt(s, delims, i, j, next);
    tok := Some(s[i..j]);
  }

  /** A counting pass of `parse_input`: call strtok until it returns NULL. */
  method CountTokens(s: string, delims: set<char>) returns (count: nat)
    ensures count == |Split(s, delims)|
  {
    count := 0;
    assert s[0..] == s;
    var tok, save := NextToken(s, delims, 0);
    while tok.Some?
      invariant save <= |s|
      invariant count + (if tok.Some? then 1 else 0) + |Split(s[save..], delims)| == |Split(s, delims)|
      invariant tok.None? ==> Split(s[save..], delims) == []
      decreases |s| - save, tok.Some?
    {
      count := count + 1;
      tok, save := NextToken(s, delims, save);
    }
  }
}
