/** The line scanner of the MAP reader: skipping whitespace and finding the
    end of a line with a cursor over a range of the mapped file, and the
    sequence of non-blank lines that repeated use of the two visits. */
module Scanner {
  import opened Text

  /** The first index at or after `i` that does not hold whitespace, or `|s|`. */
  function SkipWhite(s: string, i: nat): (j: nat)
    requires i <= |s|
    ensures i <= j <= |s|
    ensures forall k :: i <= k < j ==> IsSpace(s[k])
    ensures j == |s| || !IsSpace(s[j])
    decreases |s| - i
  {
    if i < |s| && IsSpace(s[i]) then SkipWhite(s, i + 1) else i
  }

  /** The first index at or after `i` that holds CR or LF, or `|s|`. */
  function LineEnd(s: string, i: nat): (j: nat)
    requires i <= |s|
    ensures i <= j <= |s|
    ensures forall k :: i <= k < j ==> !IsEol(s[k])
    ensures j == |s| || IsEol(s[j])
    decreases |s| - i
  {
    if i < |s| && !IsEol(s[i]) then LineEnd(s, i + 1) else i
  }

  /** Any index with SkipWhite's two properties is the one SkipWhite finds. */
  lemma {:induction false} SkipWhiteUnique(s: string, i: nat, p: nat)
    requires i <= p <= |s|
    requires forall k :: i <= k < p ==> IsSpace(s[k])
    requires p == |s| || !IsSpace(s[p])
    ensures SkipWhite(s, i) == p
    decreases p - i
  {
    if i < p {
      SkipWhiteUnique(s, i + 1, p);
    }
  }

  lemma {:induction false} LineEndUnique(s: string, i: nat, q: nat)
    requires i <= q <= |s|
    requires forall k :: i <= k < q ==> !IsEol(s[k])
    requires q == |s| || IsEol(s[q])
    ensures LineEnd(s, i) == q
    decreases q - i
  {
    if i < q {
      LineEndUnique(s, i + 1, q);
    }
  }

  /** `skipSpaces`: advance from `start` over whitespace, not past `end`. */
  method SkipSpaces(buf: string, start: nat, end: nat) returns (p: nat)
    requires start <= end <= |buf|
    ensures start <= p <= end
    ensures forall k :: start <= k < p ==> IsSpace(buf[k])
    ensures p == end || !IsSpace(buf[p])
  {
    p := start;
    while p < end && IsSpace(buf[p])
      invariant start <= p <= end
      invariant forall k :: start <= k < p ==> IsSpace(buf[k])
    {
      p := p + 1;
    }
  }

  /** `findEOL`: advance from `start` to the first CR or LF, not past `end`. */
  method FindEol(buf: string, start: nat, end: nat) returns (p: nat)
    requires start <= end <= |buf|
    ensures start <= p <= end
    ensures forall k :: start <= k < p ==> !IsEol(buf[k])
    ensures p == end || IsEol(buf[p])
  {
    p := start;
    while p < end && !IsEol(buf[p])
      invariant start <= p <= end
      invariant forall k :: start <= k < p ==> !IsEol(buf[k])
    {
      p := p + 1;
    }
  }

  /** The non-blank lines of `s` from index `k` on: skip whitespace, take
      everything up to the next CR or LF, repeat. */
  function LinesFrom(s: string, k: nat): seq<string>
    requires k <= |s|
    decreases |s| - k
  {
    var i := SkipWhite(s, k);
    if i == |s| then []
    else
      var j := LineEnd(s, i);
      [s[i..j]] + LinesFrom(s, j)
  }

  function Lines(s: string): seq<string> {
    LinesFrom(s, 0)
  }

  /** Every line starts with a character that is not whitespace and holds
      no CR or LF. */
  lemma {:induction false} LinesWellFormed(s: string, k: nat)
    requires k <= |s|
    ensures forall n :: 0 <= n < |LinesFrom(s, k)| ==>
      |LinesFrom(s, k)[n]| > 0 && !IsSpace(LinesFrom(s, k)[n][0]) &&
      forall m :: 0 <= m < |LinesFrom(s, k)[n]| ==> !IsEol(LinesFrom(s, k)[n][m])
    decreases |s| - k
  {
    var i := SkipWhite(s, k);
    if i < |s| {
      var j := LineEnd(s, i);
      LinesWellFormed(s, j);
      var rest := LinesFrom(s, j);
      assert LinesFrom(s, k) == [s[i..j]] + rest;
      forall n | 0 <= n < |LinesFrom(s, k)|
        ensures |LinesFrom(s, k)[n]| > 0 && !IsSpace(LinesFrom(s, k)[n][0]) &&
          forall m :: 0 <= m < |LinesFrom(s, k)[n]| ==> !IsEol(LinesFrom(s, k)[n][m])
      {
        if n > 0 {
          assert LinesFrom(s, k)[n] == rest[n - 1];
        }
      }
    }
  }

  /** A NUL-free buffer has NUL-free lines. */
  lemma {:induction false} LinesNulFree(s: string, k: nat)
    requires k <= |s|
    requires NulFree(s)
    ensures forall n :: 0 <= n < |LinesFrom(s, k)| ==> NulFree(LinesFrom(s, k)[n])
    decreases |s| - k
  {
    var i := SkipWhite(s, k);
    if i < |s| {
      var j := LineEnd(s, i);
      LinesNulFree(s, j);
      assert LinesFrom(s, k) == [s[i..j]] + LinesFrom(s, j);
    }
  }

  /** There are no more lines than characters after `k`. */
  lemma {:induction false} LinesCount(s: string, k: nat)
    requires k <= |s|
    ensures |LinesFrom(s, k)| <= |s| - k
    decreases |s| - k
  {
    var i := SkipWhite(s, k);
    if i < |s| {
      LinesCount(s, LineEnd(s, i));
    }
  }
}
