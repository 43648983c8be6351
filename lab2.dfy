/**
  `main`: read one line into a fixed buffer, cut it at its newline, and
  unless it is empty, parse it, run the pipeline and free the records.
  Reading from standard input is a parameter: whether `fgets` hit end of
  input, and the buffer as `fgets` left it.
*/
module Lab2 {
  import Strtok
  import Parse
  import Pipeline

  /** Size of the input buffer. */
  const MaxBuffer: nat := 4096

  /** Index of the first NUL in `s`: where the C string held in `s` ends. */
  function NulIndex(s: seq<char>): (n: nat)
    requires '\0' in s
    ensures n < |s| && s[n] == '\0'
    ensures forall k :: 0 <= k < n ==> s[k] != '\0'
  {
    if s[0] == '\0' then 0 else 1 + NulIndex(s[1..])
  }

  /** The C string held in the buffer `s`. */
  function CString(s: seq<char>): string
    requires '\0' in s
  {
    s[..NulIndex(s)]
  }

  /** The buffer after `main`'s loop: every newline before the first NUL turned into NUL. */
  function ClearNewlines(s: seq<char>): (r: seq<char>)
    requires '\0' in s
    ensures |r| == |s|
  {
    seq(|s|, k requires 0 <= k < |s| => if k < NulIndex(s) && s[k] == '\n' then '\0' else s[k])
  }

  /** The text of `line` before its first newline (all of it when there is none). */
  function UpToNewline(line: string): string
  {
    if line == [] || line[0] == '\n' then [] else [line[0]] + UpToNewline(line[1..])
  }

  /** The first newline in `s[i..n]`, or `n` when there is none. */
  function NewlineBefore(s: seq<char>, i: nat, n: nat): (m: nat)
    requires i <= n <= |s|
    ensures i <= m <= n
    ensures forall k :: i <= k < m ==> s[k] != '\n'
    ensures m == n || s[m] == '\n'
    decreases n - i
  {
    if i == n || s[i] == '\n' then i else NewlineBefore(s, i + 1, n)
  }

  lemma {:induction false} NulIndexIs(s: seq<char>, n: nat)
    requires n < |s| && s[n] == '\0'
    requires forall k :: 0 <= k < n ==> s[k] != '\0'
    ensures NulIndex(s) == n
  {
    if n > 0 {
      NulIndexIs(s[1..], n - 1);
    }
  }

  lemma {:induction false} UpToNewlineIs(line: string, m: nat)
    requires m <= |line|
    requires forall k :: 0 <= k < m ==> line[k] != '\n'
    requires m == |line| || line[m] == '\n'
    ensures UpToNewline(line) == line[..m]
  {
    if m > 0 {
      UpToNewlineIs(line[1..], m - 1);
      assert line[..m] == [line[0]] + line[1..][..m - 1];
    }
  }

  /**
    Clearing the newlines leaves in the buffer exactly the C string that is
    the line up to its first newline.
  */
  lemma ClearedLine(s: seq<char>)
    requires '\0' in s
    ensures '\0' in ClearNewlines(s)
    ensures CString(ClearNewlines(s)) == UpToNewline(CString(s))
  {
    var n := NulIndex(s);
    var r := ClearNewlines(s);
    var m := NewlineBefore(s, 0, n);
    assert r[m] == '\0';
    NulIndexIs(r, m);
    UpToNewlineIs(CString(s), m);
    assert r[..m] == s[..m];
  }

  /**
    A line of blanks only is not empty for `main`: it is one `|`-field, so
    one record with no program is built and one child is forked for it.
  */
  lemma BlankLineForksOnce(line: string)
    requires line != []
    requires forall k :: 0 <= k < |line| ==> line[k] in Strtok.BlankDelims
    ensures Strtok.Split(line, Strtok.PipeDelims) == [line]
    ensures var n := |Strtok.Split(line, Strtok.PipeDelims)|;
      Pipeline.Count(Pipeline.SpawnLog(n, n) + Pipeline.Waits(n), Pipeline.IsFork) == 1
  {
    Strtok.SplitSingle(line, Strtok.PipeDelims);
    Pipeline.PipelineCounts(1);
  }

  // ---------------------------------------------------------------------------
  // main

  /**
    The loop of `main` over the buffer: it tests each byte against NUL and
    overwrites newlines with NUL, so it runs on past an overwritten newline
    and stops only at the NUL `fgets` wrote.
  */
  method ClearNewlinesInPlace(buf: array<char>)
    requires '\0' in buf[..]
    modifies buf
    ensures buf[..] == ClearNewlines(old(buf[..]))
  {
    ghost var orig := buf[..];
    ghost var n := NulIndex(orig);
    var i := 0;
    while buf[i] != '\0'
      invariant 0 <= i <= n
      invariant forall k :: 0 <= k < buf.Length ==> buf[k] == if k < i && orig[k] == '\n' then '\0' else orig[k]
      decreases n - i
    {
      if buf[i] == '\n' {
        buf[i] := '\0';
      }
      i := i + 1;
    }
  }

  /** The calls `main` makes into the rest of the program. */
  datatype Call = CallParse(line: string) | CallExecute(count: nat) | CallFree(count: nat)

  /**
    `main`. `atEnd` says `fgets` found no input; otherwise `buf` holds what it
    stored, NUL-terminated. Returns the exit status and the calls made.
  */
  method Run(atEnd: bool, buf: array<char>) returns (status: int, calls: seq<Call>)
    requires buf.Length == MaxBuffer
    requires !atEnd ==> '\0' in buf[..]
    modifies buf
    ensures status == 0
    ensures atEnd ==> calls == [] && buf[..] == old(buf[..])
    ensures !atEnd ==> '\0' in old(buf[..]) && buf[..] == ClearNewlines(old(buf[..]))
    ensures !atEnd ==>
      var line := UpToNewline(CString(old(buf[..])));
      var count := |Strtok.Split(line, Strtok.PipeDelims)|;
      calls == if line == [] then [] else [CallParse(line), CallExecute(count), CallFree(count)]
  {
    if atEnd {
      return 0, [];
    }
    ClearNewlinesInPlace(buf);
    ClearedLine(old(buf[..]));
    if buf[0] == '\0' {
      NulIndexIs(buf[..], 0);
      return 0, [];
    }
    var line := CString(buf[..]);
    var cmds, cmdCount := Parse.ParseInput(line);
    var log, held := Pipeline.ExecutePipeline(cmdCount);
    // free_memory(cmds, cmd_count) releases the records: nothing to model
    calls := [CallParse(line), CallExecute(cmdCount), CallFree(cmdCount)];
    status := 0;
  }
}
