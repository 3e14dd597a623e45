/** Commit names: `getCommitName` draws a random int in
    [0x1000000, 0xfffffff) and renders it with `Integer.toString(k, 16)`. The
    random draw and the retry on collision are the caller's: the model
    takes the drawn number as a parameter. */
module Names {

  const MinPick: int := 0x1000000
  const MaxPick: int := 0xfffffff

  predicate ValidPick(k: int)
  {
    MinPick <= k < MaxPick
  }

  function HexDigit(d: nat): (c: char)
    requires d < 16
  {
    if d < 10 then (48 + d) as char else (87 + d) as char
  }

  function DigitValue(c: char): nat
  {
    if '0' <= c <= '9' then c as nat - 48
    else if 'a' <= c <= 'f' then c as nat - 87
    else 0
  }

  /** Lower-case hexadecimal without leading zeros, as `Integer.toString(k, 16)`. */
  function Hex(k: nat): string
    decreases k
  {
    if k < 16 then [HexDigit(k)] else Hex(k / 16) + [HexDigit(k % 16)]
  }

  function ParseHex(s: string): nat
  {
    if s == [] then 0 else ParseHex(s[..|s| - 1]) * 16 + DigitValue(s[|s| - 1])
  }

  function Pow16(n: nat): nat
  {
    if n == 0 then 1 else 16 * Pow16(n - 1)
  }

  /** The name a drawn number yields. */
  function CommitName(k: int): (name: string)
    requires ValidPick(k)
    ensures |name| == 7
    ensures forall i :: 0 <= i < |name| ==> '0' <= name[i] <= '9' || 'a' <= name[i] <= 'f'
    ensures ParseHex(name) == k
  {
    assert Pow16(6) == MinPick && Pow16(7) > MaxPick by { PowSevenDigits(); }
    HexLength(k, 7);
    HexDigits(k);
    HexRoundTrip(k);
    Hex(k)
  }

  lemma {:induction false} HexDigits(k: nat)
    ensures forall i :: 0 <= i < |Hex(k)| ==> '0' <= Hex(k)[i] <= '9' || 'a' <= Hex(k)[i] <= 'f'
    decreases k
  {
    if k >= 16 {
      HexDigits(k / 16);
    }
  }

  /** Reading the rendering back gives the number: renderings are injective. */
  lemma {:induction false} HexRoundTrip(k: nat)
    ensures ParseHex(Hex(k)) == k
    decreases k
  {
    if k >= 16 {
      var s := Hex(k);
      assert s[..|s| - 1] == Hex(k / 16);
      HexRoundTrip(k / 16);
    }
  }

  /** A number with n hexadecimal digits renders to n characters. */
  lemma {:induction false} HexLength(k: nat, n: nat)
    requires 1 <= n && Pow16(n - 1) <= k < Pow16(n)
    ensures |Hex(k)| == n
    decreases n
  {
    if n > 1 {
      assert k >= 16 by { PowAtLeast(n - 1); }
      HexLength(k / 16, n - 1);
    }
  }

  lemma PowSevenDigits()
    ensures Pow16(6) == 0x1000000 && Pow16(7) == 0x10000000
  {
    assert Pow16(2) == 0x100;
    assert Pow16(4) == 0x10000;
  }

  lemma {:induction false} PowAtLeast(n: nat)
    requires n >= 1
    ensures Pow16(n) >= 16
  {
    if n > 1 {
      PowAtLeast(n - 1);
    }
  }
}
