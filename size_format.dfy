/**
 * Human-readable file sizes: the byte count is divided by 1024 until it drops
 * below 1024 or the unit reaches GB, then printed with one decimal.
 */
module SizeFormat {
  import opened Strings

  function Pow1024(k: nat): (p: nat)
    ensures p >= 1
  {
    if k == 0 then 1 else 1024 * Pow1024(k - 1)
  }

  /** The units in the order the source tries them; GB is the last resort. */
  const Units: seq<string> := ["B", "KB", "MB", "GB"]

  /** Which entry of `Units` is used for `size` bytes. */
  function UnitIndex(size: nat): (u: nat)
    ensures u < |Units|
  {
    if size < 1024 then 0
    else if size < 1024 * 1024 then 1
    else if size < 1024 * 1024 * 1024 then 2
    else 3
  }

  /**
   * The integer nearest to a / d, ties going to the even neighbour: the
   * rounding Python applies when it prints a value that is exactly a / d.
   */
  function RoundHalfEven(a: nat, d: nat): (q: nat)
    requires d > 0
    ensures var e := 2 * ((a as int) - (q as int) * (d as int));
      -(d as int) <= e <= d && (e == d || e == -(d as int) ==> q % 2 == 0)
  {
    var quo, rem := a / d, a % d;
    assert a == quo * d + rem;
    if 2 * rem < d || (2 * rem == d && quo % 2 == 0) then quo else quo + 1
  }

  /**
   * `f"{x:.1f}"` for the exact value x = n / d (d a power of two, so that the
   * quotient is exact): the tenths are rounded half to even.
   */
  function OneDecimal(n: nat, d: nat): string
    requires d > 0
  {
    var tenths := RoundHalfEven(10 * n, d);
    NatToString(tenths / 10) + "." + [DigitChar(tenths % 10)]
  }

  /** The text `format_size` produces for `size` bytes. */
  function SizeText(size: nat): string
  {
    var u := UnitIndex(size);
    OneDecimal(size, Pow1024(u)) + Units[u]
  }

  /**
   * `format_size`: tries B, KB and MB in turn, dividing by 1024 after each
   * miss; `scale` is what the source has divided by so far, so the source's
   * running value is `size / scale`.
   */
  method FormatSize(size: nat) returns (s: string)
    ensures s == SizeText(size)
  {
    var units := ["B", "KB", "MB"];
    var scale := 1;
    var k := 0;
    while k < |units|
      invariant 0 <= k <= |units|
      invariant scale == Pow1024(k)
      invariant k > 0 ==> size >= scale
    {
      if size < 1024 * scale {
        assert UnitIndex(size) == k;
        return OneDecimal(size, scale) + units[k];
      }
      scale := scale * 1024;
      k := k + 1;
    }
    assert UnitIndex(size) == 3;
    s := OneDecimal(size, scale) + "GB";
  }

  /**
   * The unit is the largest of B, KB, MB, GB at which the value is at least
   * one, and below GB the value stays under 1024.
   */
  lemma UnitIsLargestFit(size: nat)
    ensures var u := UnitIndex(size);
      (u > 0 ==> Pow1024(u) <= size) && (u < 3 ==> size < 1024 * Pow1024(u))
  {
    assert Pow1024(1) == 1024;
    assert Pow1024(2) == 1024 * 1024;
    assert Pow1024(3) == 1024 * 1024 * 1024;
  }

  /** Below 1024 bytes the text is the integer's digits followed by ".0B". */
  lemma SmallSizeText(size: nat)
    requires size < 1024
    ensures SizeText(size) == NatToString(size) + ".0B"
  {
    assert RoundHalfEven(10 * size, 1) == 10 * size;
    assert (10 * size) / 10 == size && (10 * size) % 10 == 0;
  }

  /** 1536 bytes print as "1.5KB". */
  lemma SizeText1536(size: nat)
    requires size == 1536
    ensures SizeText(size) == "1.5KB"
  {
    assert UnitIndex(size) == 1;
    assert RoundHalfEven(10 * size, 1024) == 15;
    assert NatToString(1) == "1";
  }

  /** One mebibyte prints as "1.0MB". */
  lemma SizeText1MiB(size: nat)
    requires size == 1048576
    ensures SizeText(size) == "1.0MB"
  {
    assert UnitIndex(size) == 2;
    assert Pow1024(2) == 1048576;
    assert RoundHalfEven(10 * size, 1048576) == 10;
    assert NatToString(1) == "1";
  }

  /**
   * One byte short of a mebibyte is still shown in KB, but rounding to one
   * decimal makes it read "1024.0KB".
   */
  lemma SizeTextJustBelow1MiB(size: nat)
    requires size == 1048575
    ensures SizeText(size) == "1024.0KB"
  {
    assert UnitIndex(size) == 1;
    assert RoundHalfEven(10 * size, 1024) == 10240;
    assert NatToString(1024) == "1024";
  }
}
