/**
 * Splitting a rendered document into at most `n` parts of whole lines, each
 * part headed "# Part k of n".
 */
module Splitter {
  import opened Wrappers
  import opened Strings

  /** `range(0, total, 0)` raises: an empty document cannot be split in two or more. */
  datatype SplitError = ZeroStep

  /** `math.ceil(a / b)`. */
  function CeilDiv(a: nat, b: nat): nat
    requires b > 0
  {
    (a + b - 1) / b
  }

  /** `k` is below ⌈a / b⌉ exactly when `k` whole steps of `b` stay below `a`. */
  lemma CeilDivBelow(a: nat, b: nat, k: nat)
    requires b > 0
    ensures k < CeilDiv(a, b) <==> k * b < a
  {
    var c := CeilDiv(a, b);
    assert c * b + (a + b - 1) % b == a + b - 1;
    if k < c {
      MulMono(k, c - 1, b);
      MulSucc(c - 1, b);
    } else {
      MulMono(c, k, b);
    }
  }

  lemma MulMono(x: nat, y: nat, b: nat)
    requires x <= y
    ensures x * b <= y * b
  {
    assert y * b == x * b + (y - x) * b;
  }

  function Min(a: nat, b: nat): nat
  {
    if a <= b then a else b
  }

  /** The header placed before part `k` (counted from 1) of a split into `n`. */
  function Header(k: nat, n: nat): string
  {
    "# Part " + NatToString(k) + " of " + NatToString(n) + "\n\n"
  }

  /** Consecutive groups of `size` lines; the last group may be shorter. */
  function Chunks(lines: seq<string>, size: nat): (groups: seq<seq<string>>)
    requires size > 0
    ensures forall k :: 0 <= k < |groups| ==> 1 <= |groups[k]| <= size
  {
    if lines == [] then []
    else if |lines| <= size then [lines]
    else [lines[..size]] + Chunks(lines[size..], size)
  }

  lemma MulSucc(j: nat, size: nat)
    ensures (j + 1) * size == j * size + size
  {
  }

  /** Quotient and remainder are the only ones: `a == q * b + r` with `0 <= r < b` fixes both. */
  lemma DivUnique(a: nat, b: nat, q: int, r: int)
    requires b > 0 && 0 <= r < b && a == q * b + r
    ensures a / b == q && a % b == r
  {
    var q', r' := a / b, a % b;
    assert q' * b + r' == q * b + r;
    assert (q' - q) * b == r - r' by {
      assert (q' - q) * b == q' * b - q * b;
    }
    if q' > q {
      MulAtLeast(q' - q, b);
    } else if q' < q {
      MulAtLeast(q - q', b);
    }
  }

  lemma {:induction false} MulAtLeast(m: nat, b: nat)
    requires m >= 1
    ensures m * b >= b
  {
    if m > 1 {
      MulAtLeast(m - 1, b);
      MulSucc(m - 1, b);
    }
  }

  lemma DivAddDivisor(x: nat, b: nat)
    requires b > 0
    ensures (x + b) / b == x / b + 1
  {
    var q, r := x / b, x % b;
    assert x + b == (q + 1) * b + r;
    DivUnique(x + b, b, q + 1, r);
  }

  /** There are ⌈|lines| / size⌉ groups. */
  lemma {:induction false} ChunkCount(lines: seq<string>, size: nat)
    requires size > 0
    ensures |Chunks(lines, size)| == CeilDiv(|lines|, size)
    decreases |lines|
  {
    if lines == [] {
      DivUnique(size - 1, size, 0, size - 1);
    } else if |lines| <= size {
      DivUnique(|lines| + size - 1, size, 1, |lines| - 1);
    } else {
      var rest := lines[size..];
      ChunkCount(rest, size);
      assert |Chunks(lines, size)| == 1 + |Chunks(rest, size)|;
      DivAddDivisor(|rest| + size - 1, size);
    }
  }

  /** Group `k` is the slice of at most `size` lines starting at line `k * size`. */
  lemma {:induction false} ChunkAt(lines: seq<string>, size: nat, k: nat)
    requires size > 0
    requires k < |Chunks(lines, size)|
    ensures k * size < |lines|
    ensures Chunks(lines, size)[k] == lines[k * size..Min((k + 1) * size, |lines|)]
    decreases |lines|
  {
    MulSucc(k, size);
    if k > 0 {
      var rest := lines[size..];
      assert Chunks(lines, size)[k] == Chunks(rest, size)[k - 1];
      ChunkAt(rest, size, k - 1);
      MulSucc(k - 1, size);
      var lo, hi := (k - 1) * size, Min(k * size, |rest|);
      assert lo + size == k * size && hi + size == Min((k + 1) * size, |lines|);
      SliceOfDrop(lines, size, lo, hi);
    }
  }

  lemma SliceOfDrop<T>(s: seq<T>, d: nat, lo: nat, hi: nat)
    requires d <= |s| && lo <= hi <= |s| - d
    ensures s[d..][lo..hi] == s[lo + d..hi + d]
  {
  }

  /** Concatenating the groups gives back the lines. */
  lemma {:induction false} ChunksFlatten(lines: seq<string>, size: nat)
    requires size > 0
    ensures Flatten(Chunks(lines, size)) == lines
    decreases |lines|
  {
    if |lines| > size {
      ChunksFlatten(lines[size..], size);
      assert lines == lines[..size] + lines[size..];
    }
  }

  function Flatten<T>(groups: seq<seq<T>>): seq<T>
  {
    if groups == [] then [] else groups[0] + Flatten(groups[1..])
  }

  /** The first `k` headed parts: group `j` under the header of part `j + 1` of `n`. */
  function PartsUpTo(groups: seq<seq<string>>, k: nat, n: nat): (parts: seq<string>)
    requires k <= |groups|
    ensures |parts| == k
  {
    if k == 0 then [] else PartsUpTo(groups, k - 1, n) + [PartText(groups, k - 1, n)]
  }

  /** The headed parts for lines grouped `size` at a time, out of `n` requested. */
  function Parts(lines: seq<string>, size: nat, n: nat): (parts: seq<string>)
    requires size > 0
    ensures |parts| == |Chunks(lines, size)|
  {
    var groups := Chunks(lines, size);
    PartsUpTo(groups, |groups|, n)
  }

  /** Part `k` (counted from 0): its header, then the lines of group `k` joined by '\n'. */
  function PartText(groups: seq<seq<string>>, k: nat, n: nat): string
    requires k < |groups|
  {
    Header(k + 1, n) + Join(groups[k], '\n')
  }

  /** Entry `j` of the first `k` parts is part `j`. */
  lemma {:induction false} PartsUpToAt(groups: seq<seq<string>>, k: nat, n: nat, j: nat)
    requires k <= |groups| && j < k
    ensures PartsUpTo(groups, k, n)[j] == PartText(groups, j, n)
  {
    if j < k - 1 {
      PartsUpToAt(groups, k - 1, n, j);
    }
  }

  /** What `split_content(content, numParts)` returns, or the error it raises. */
  function SplitSpec(content: string, numParts: int): Result<seq<string>, SplitError>
  {
    if numParts <= 1 then Ok([content])
    else
      var lines := SplitLines(content);
      var size := CeilDiv(|lines|, numParts);
      if size == 0 then Err(ZeroStep) else Ok(Parts(lines, size, numParts))
  }

  /** The header the source writes out for the first part is `Header(1, n)`. */
  lemma FirstHeader(n: nat)
    ensures "# Part 1 of " + NatToString(n) + "\n\n" == Header(1, n)
  {
    assert NatToString(1) == "1";
  }

  /**
   * One turn of the loop in `split_content`: at `i == k * size` with group `k`
   * still to go, the header written for part `i // size + 1` (spelled out in
   * full for the first part) followed by the slice taken there is part `k`,
   * and the next `i` is `(k + 1) * size`.
   */
  lemma StepText(lines: seq<string>, size: nat, n: nat, k: nat, i: nat, header: string, text: string)
    requires size > 0 && i == k * size && i < |lines|
    requires header == if i == 0 then "# Part 1 of " + NatToString(n) + "\n\n" else Header(i / size + 1, n)
    requires text == header + Join(lines[i..Min(i + size, |lines|)], '\n')
    ensures k < |Chunks(lines, size)|
    ensures i / size == k
    ensures i + size == (k + 1) * size
    ensures text == PartText(Chunks(lines, size), k, n)
  {
    ChunkCount(lines, size);
    CeilDivBelow(|lines|, size, k);
    ChunkAt(lines, size, k);
    MulSucc(k, size);
    DivUnique(i, size, k, 0);
    assert header == Header(k + 1, n) by {
      if i == 0 {
        MulAtLeastZero(k, size);
        FirstHeader(n);
      }
    }
    assert lines[i..Min(i + size, |lines|)] == Chunks(lines, size)[k];
  }

  /** A product with a positive factor is zero only when the other factor is. */
  lemma MulAtLeastZero(k: nat, size: nat)
    requires size > 0 && k * size == 0
    ensures k == 0
  {
    if k > 0 {
      MulAtLeast(k, size);
    }
  }

  /**
   * `split_content`: walks `range(0, total_lines, lines_per_part)` and emits
   * one headed part per step.
   */
  method SplitContent(content: string, numParts: int) returns (r: Result<seq<string>, SplitError>)
    ensures r == SplitSpec(content, numParts)
  {
    if numParts <= 1 {
      return Ok([content]);
    }
    var lines := SplitLines(content);
    var total := |lines|;
    var linesPerPart := CeilDiv(total, numParts);
    if linesPerPart == 0 {
      return Err(ZeroStep);
    }
    ghost var groups := Chunks(lines, linesPerPart);
    ChunkCount(lines, linesPerPart);
    var parts: seq<string> := [];
    var i := 0;
    while i < total
      invariant |parts| <= |groups|
      invariant i == |parts| * linesPerPart
      invariant parts == PartsUpTo(groups, |parts|, numParts)
      decreases total - i
    {
      DivUnique(i, linesPerPart, |parts|, 0);
      var header;
      if i == 0 {
        header := "# Part 1 of " + NatToString(numParts) + "\n\n";
      } else {
        var partNum := i / linesPerPart + 1;
        header := Header(partNum, numParts);
      }
      var text := header + Join(lines[i..Min(i + linesPerPart, total)], '\n');
      StepText(lines, linesPerPart, numParts, |parts|, i, header, text);
      parts := parts + [text];
      i := i + linesPerPart;
    }
    CeilDivBelow(total, linesPerPart, |parts|);
    return Ok(parts);
  }

  // ---------------------------------------------------------------------------
  // What the parts look like
  // ---------------------------------------------------------------------------

  /**
   * Asking for at most one part returns the document untouched; asking for two
   * or more fails exactly when the document has no lines, that is, is empty.
   */
  lemma SplitOutcome(content: string, n: int)
    ensures n <= 1 ==> SplitSpec(content, n) == Ok([content])
    ensures SplitSpec(content, n).Err? <==> n >= 2 && content == []
  {
    if n >= 2 {
      CeilDivBelow(|SplitLines(content)|, n, 0);
    }
  }

  /** Every group but the last holds exactly `size` lines; the last holds 1 to `size`. */
  lemma ChunkSizes(lines: seq<string>, size: nat, k: nat)
    requires size > 0 && k < |Chunks(lines, size)|
    ensures 1 <= |Chunks(lines, size)[k]| <= size
    ensures k < |Chunks(lines, size)| - 1 ==> |Chunks(lines, size)[k]| == size
  {
    ChunkAt(lines, size, k);
    if k < |Chunks(lines, size)| - 1 {
      ChunkCount(lines, size);
      CeilDivBelow(|lines|, size, k + 1);
    }
  }

  /**
   * With `n >= 2` parts asked of `L >= 1` lines, `lines_per_part` is ⌈L / n⌉
   * and there are ⌈L / lines_per_part⌉ parts, never more than `n`.
   */
  lemma PartCount(content: string, n: int)
    requires n >= 2 && content != []
    ensures var lines := SplitLines(content);
      var size := CeilDiv(|lines|, n);
      size >= 1 && SplitSpec(content, n) == Ok(Parts(lines, size, n)) &&
      |Parts(lines, size, n)| == CeilDiv(|lines|, size) <= n
  {
    var lines := SplitLines(content);
    var size := CeilDiv(|lines|, n);
    SplitOutcome(content, n);
    ChunkCount(lines, size);
    CeilDivBelow(|lines|, n, size);
    CeilDivBelow(|lines|, size, n);
  }

  /** Five lines asked for in four parts come out as three parts of 2, 2 and 1 lines. */
  lemma FiveLinesInFourParts(lines: seq<string>)
    requires |lines| == 5
    ensures CeilDiv(|lines|, 4) == 2
    ensures var groups := Chunks(lines, 2);
      |groups| == 3 && |groups[0]| == 2 && |groups[1]| == 2 && |groups[2]| == 1
  {
    ChunkCount(lines, 2);
    ChunkSizes(lines, 2, 0);
    ChunkSizes(lines, 2, 1);
    ChunkAt(lines, 2, 2);
  }

  /** The texts of the groups, each group's lines joined by '\n'. */
  function Bodies(groups: seq<seq<string>>): (bodies: seq<string>)
    ensures |bodies| == |groups|
  {
    seq(|groups|, k requires 0 <= k < |groups| => Join(groups[k], '\n'))
  }

  /** Joining nonempty groups of lines line by line, or group text by group text, is the same. */
  lemma {:induction false} JoinFlatten(groups: seq<seq<string>>)
    requires |groups| >= 1
    requires forall k :: 0 <= k < |groups| ==> |groups[k]| >= 1
    ensures Join(Flatten(groups), '\n') == Join(Bodies(groups), '\n')
  {
    var rest := groups[1..];
    if rest != [] {
      JoinFlatten(rest);
      assert Flatten(groups) == groups[0] + Flatten(rest);
      assert |Flatten(rest)| >= 1 by {
        assert Flatten(rest) == rest[0] + Flatten(rest[1..]);
      }
      JoinAppend(groups[0], Flatten(rest), '\n');
      assert Bodies(groups) == [Join(groups[0], '\n')] + Bodies(rest);
      JoinAppend([Join(groups[0], '\n')], Bodies(rest), '\n');
    } else {
      assert Flatten(groups) == groups[0] + Flatten(rest) == groups[0];
      assert Bodies(groups) == [Join(groups[0], '\n')];
      assert Join(Bodies(groups), '\n') == Join(groups[0], '\n');
    }
  }

  /** Each part with the header of its position removed. */
  function StripHeaders(parts: seq<string>, n: nat): (bodies: seq<string>)
    requires forall k :: 0 <= k < |parts| ==> Header(k + 1, n) <= parts[k]
    ensures |bodies| == |parts|
    ensures forall k :: 0 <= k < |parts| ==> parts[k] == Header(k + 1, n) + bodies[k]
  {
    seq(|parts|, k requires 0 <= k < |parts| => parts[k][|Header(k + 1, n)|..])
  }

  /**
   * Part `k` (from 1) opens with "# Part k of n", and once the headers are
   * stripped, joining the parts with '\n' gives back `'\n'.join(content.splitlines())`:
   * no line is lost, repeated or moved.
   */
  lemma {:induction false} SplitReassembles(content: string, n: int)
    requires n >= 2 && content != []
    ensures SplitSpec(content, n).Ok?
    ensures var parts := SplitSpec(content, n).value;
      (forall k :: 0 <= k < |parts| ==> Header(k + 1, n) <= parts[k]) &&
      Join(StripHeaders(parts, n), '\n') == Join(SplitLines(content), '\n') == DropFinalNewline(content)
  {
    var lines := SplitLines(content);
    var size := CeilDiv(|lines|, n);
    PartCount(content, n);
    var groups := Chunks(lines, size);
    var parts := Parts(lines, size, n);
    forall k | 0 <= k < |parts|
      ensures parts[k] == Header(k + 1, n) + Bodies(groups)[k]
    {
      PartsUpToAt(groups, |groups|, n, k);
    }
    assert StripHeaders(parts, n) == Bodies(groups);
    JoinFlatten(groups);
    ChunksFlatten(lines, size);
    JoinSplitLines(content);
  }
}
