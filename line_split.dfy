/**
 * Line splitting as done by a Go `bufio.Scanner` with its default split
 * function (`bufio.ScanLines`), which the os-release detector uses to read
 * each file one line at a time.
 *
 * The split function cuts the input at every '\n', removes at most one
 * '\r' from the end of each token, yields a final token that has no
 * terminating newline, and yields no empty token after a final newline.
 * `Lines` states this splitting as a function; `Scanner` is the stateful
 * object the detector drives with `Scan` and `Text`.
 */
module LineSplit {

  /** Index of the first '\n' in `s`, or `|s|` when there is none. */
  function LineEnd(s: string): (i: nat)
    ensures i <= |s|
    ensures forall j :: 0 <= j < i ==> s[j] != '\n'
    ensures i < |s| ==> s[i] == '\n'
  {
    if s == [] then 0
    else if s[0] == '\n' then 0
    else 1 + LineEnd(s[1..])
  }

  predicate EndsWithCR(s: string) {
    |s| > 0 && s[|s| - 1] == '\r'
  }

  /** Removes one trailing carriage return, if there is one. */
  function DropCR(s: string): (r: string)
    ensures EndsWithCR(s) ==> r + "\r" == s
    ensures !EndsWithCR(s) ==> r == s
  {
    if EndsWithCR(s) then s[..|s| - 1] else s
  }

  /**
   * The default split function applied at the end of the input: how many
   * characters the next token consumes, and the token itself.
   */
  function ScanLines(data: string): (r: (nat, string))
    requires data != []
    ensures 0 < r.0 <= |data|
    ensures r.0 < |data| ==> data[r.0 - 1] == '\n'
    ensures '\n' !in r.1 && |r.1| <= r.0
    ensures '\n' !in data[..r.0 - 1]
    ensures data[r.0 - 1] == '\n' ==> r.1 == DropCR(data[..r.0 - 1])
    ensures data[r.0 - 1] != '\n' ==> r.0 == |data| && r.1 == DropCR(data)
  {
    var i := LineEnd(data);
    if i < |data| then (i + 1, DropCR(data[..i])) else (|data|, DropCR(data))
  }

  /** The tokens the default line splitter yields for the whole of `s`. */
  function Lines(s: string): (ls: seq<string>)
    ensures forall k :: 0 <= k < |ls| ==> '\n' !in ls[k]
    ensures |ls| <= |s|
    ensures s != [] ==> |ls| > 0
    decreases |s|
  {
    if s == [] then []
    else
      var (advance, token) := ScanLines(s);
      [token] + Lines(s[advance..])
  }

  /**
   * Writes every line followed by a newline. It undoes `Lines` only on lines
   * that hold no '\n' and do not end in '\r' (see `LinesOfJoin`), because
   * the split drops one trailing '\r' and a final newline.
   */
  function JoinLines(ls: seq<string>): string {
    if ls == [] then "" else ls[0] + "\n" + JoinLines(ls[1..])
  }

  /** A line ended by '\n' is cut there, and the scan goes on after it. */
  lemma SplitAtNewline(a: string, b: string)
    requires '\n' !in a
    ensures Lines(a + "\n" + b) == [DropCR(a)] + Lines(b)
  {
    var s := a + "\n" + b;
    LineEndOf(a, b);
    assert s[..|a|] == a;
    assert s[|a| + 1..] == b;
  }

  lemma LineEndOf(a: string, b: string)
    requires '\n' !in a
    ensures LineEnd(a + "\n" + b) == |a|
  {
    var s := a + "\n" + b;
    assert s[|a|] == '\n';
    assert forall j :: 0 <= j < |a| ==> s[j] == a[j];
  }

  /** A last line without a newline is still yielded, with one '\r' dropped. */
  lemma FinalLineWithoutNewline(a: string)
    requires a != [] && '\n' !in a
    ensures Lines(a) == [DropCR(a)]
  {
  }

  /** A final newline does not produce an extra empty line. */
  lemma NoEmptyLineAfterFinalNewline(a: string)
    requires '\n' !in a
    ensures Lines(a + "\n") == [DropCR(a)]
  {
  }

  /** Splitting what `JoinLines` wrote gives the lines back. */
  lemma {:induction false} LinesOfJoin(ls: seq<string>)
    requires forall k :: 0 <= k < |ls| ==> '\n' !in ls[k] && !EndsWithCR(ls[k])
    ensures Lines(JoinLines(ls)) == ls
  {
    if ls != [] {
      LinesOfJoin(ls[1..]);
      SplitAtNewline(ls[0], JoinLines(ls[1..]));
    }
  }

  /** No line of `s` ends in a carriage return that the split would drop. */
  predicate NoCRAtLineEnd(s: string) {
    && !EndsWithCR(s)
    && forall i :: 0 < i < |s| && s[i] == '\n' ==> s[i - 1] != '\r'
  }

  lemma NoCRAtLineEndSuffix(s: string, k: nat)
    requires NoCRAtLineEnd(s) && k <= |s|
    ensures NoCRAtLineEnd(s[k..])
  {
    var b := s[k..];
    if b != [] {
      assert b[|b| - 1] == s[|s| - 1];
    }
    forall j | 0 < j < |b| && b[j] == '\n' ensures b[j - 1] != '\r' {
      assert b[j] == s[k + j] && b[j - 1] == s[k + j - 1];
    }
  }

  /**
   * Joining the lines of an input whose lines do not end in '\r' gives the
   * input back, with a newline added when its last line had none.
   */
  lemma {:induction false} JoinOfLines(s: string)
    requires NoCRAtLineEnd(s)
    ensures JoinLines(Lines(s)) == if s == [] || s[|s| - 1] == '\n' then s else s + "\n"
    decreases |s|
  {
    if s != [] {
      var i := LineEnd(s);
      if i < |s| {
        var a, b := s[..i], s[i + 1..];
        assert s == a + "\n" + b;
        assert !EndsWithCR(a) by {
          if i > 0 {
            assert s[i] == '\n';
          }
        }
        NoCRAtLineEndSuffix(s, i + 1);
        JoinOfLines(b);
        assert JoinLines(Lines(s)) == a + "\n" + JoinLines(Lines(b));
        if b == [] {
          assert s[|s| - 1] == '\n';
        } else {
          assert s[|s| - 1] == b[|b| - 1];
        }
      } else {
        assert s[|s| - 1] != '\n';
        assert JoinLines(Lines(s)) == s + "\n" + "";
      }
    }
  }

  /**
   * The stateful scanner the detector reads a file with. `pos` is how much
   * of the input has been consumed, `token` the line the last `Scan`
   * produced (empty after one that found no more input), and `Emitted` the lines produced so far.
   */
  class Scanner {
    const input: string
    var pos: nat
    var token: string
    ghost var Emitted: seq<string>

    /**
     * What was emitted and what is left to split make up the whole split,
     * and the current token is a single line.
     */
    ghost predicate Valid()
      reads this
    {
      && pos <= |input|
      && Lines(input) == Emitted + Lines(input[pos..])
      && '\n' !in token
    }

    constructor (s: string)
      ensures Valid() && input == s && pos == 0 && Emitted == []
    {
      input := s;
      pos := 0;
      token := "";
      Emitted := [];
    }

    /** Advances to the next line; false once the input is used up. */
    method Scan() returns (ok: bool)
      requires Valid()
      modifies this
      ensures Valid()
      ensures ok <==> old(pos) < |input|
      ensures ok ==> Emitted == old(Emitted) + [token] && pos > old(pos)
      ensures !ok ==> Emitted == old(Emitted) && pos == old(pos) == |input| && token == ""
    {
      if pos == |input| {
        token := "";
        return false;
      }
      ghost var done, rest := Emitted, input[pos..];
      var (advance, line) := ScanLines(input[pos..]);
      ghost var after := input[pos + advance..];
      assert rest[advance..] == after;
      assert Lines(input) == done + ([line] + Lines(after));
      assert Lines(input) == (done + [line]) + Lines(after);
      token, pos, Emitted := line, pos + advance, done + [line];
      assert input[pos..] == after;
      ok := true;
    }

    /**
     * The line produced by the most recent `Scan`: the last of `Emitted`
     * after a successful one, empty after one that found no more input.
     */
    function Text(): (t: string)
      reads this
      ensures Valid() ==> '\n' !in t
    {
      token
    }
  }
}
