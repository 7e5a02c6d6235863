/** Authorization data written as hexadecimal digits. */
module HexTokens {
  import opened Options

  type Byte = b: nat | b < 256

  /** atox, with None for -1. */
  function DigitValue(c: char): (v: Option<nat>)
    ensures v.Some? ==> v.value < 16
  {
    if '0' <= c <= '9' then Some(c as int - '0' as int)
    else if 'a' <= c <= 'f' then Some(c as int - 'a' as int + 10)
    else if 'A' <= c <= 'F' then Some(c as int - 'A' as int + 10)
    else None
  }

  predicate HexPair(s: string, i: nat)
    requires 2 * i + 1 < |s|
  {
    DigitValue(s[2 * i]).Some? && DigitValue(s[2 * i + 1]).Some?
  }

  function PairValue(s: string, i: nat): Byte
    requires 2 * i + 1 < |s| && HexPair(s, i)
  {
    16 * DigitValue(s[2 * i]).value + DigitValue(s[2 * i + 1]).value
  }

  /** How many pairs of digits a token begins with. */
  function GoodPairs(s: string, from: nat): (n: nat)
    requires 2 * from <= |s|
    ensures from <= n <= |s| / 2
    ensures forall i :: from <= i < n ==> HexPair(s, i)
    ensures n < |s| / 2 ==> !HexPair(s, n)
    decreases |s| - 2 * from
  {
    if 2 * from + 1 < |s| && HexPair(s, from) then GoodPairs(s, from + 1) else from
  }

  /** The data of a token: its pairs of digits up to the first that is none, the rest zero as allocated. */
  function TokenData(s: string): (data: seq<Byte>)
    ensures |data| == |s| / 2
  {
    var n := GoodPairs(s, 0);
    seq(|s| / 2, i requires 0 <= i < |s| / 2 => if i < n then PairValue(s, i) else 0)
  }

  /** The data is what the digits say exactly when all pairs are digits. */
  predicate Readable(s: string) {
    forall i :: 0 <= i < |s| / 2 ==> HexPair(s, i)
  }

  method Hex2Bin(input: string, out: array<Byte>) returns (ok: bool)
    requires out.Length == |input| / 2
    modifies out
    ensures ok <==> Readable(input)
    ensures var n := GoodPairs(input, 0);
            && (forall i :: 0 <= i < n ==> out[i] == PairValue(input, i))
            && (forall i :: n <= i < out.Length ==> out[i] == old(out[i]))
  {
    var k := 0;
    while 2 * k + 1 < |input|
      invariant 2 * k <= |input| && GoodPairs(input, 0) == GoodPairs(input, k)
      invariant forall i :: 0 <= i < k ==> HexPair(input, i) && out[i] == PairValue(input, i)
      invariant forall i :: k <= i < out.Length ==> out[i] == old(out[i])
    {
      var top := DigitValue(input[2 * k]);
      if top.None? {
        return false;
      }
      var bottom := DigitValue(input[2 * k + 1]);
      if bottom.None? {
        return false;
      }
      out[k] := 16 * top.value + bottom.value;
      k := k + 1;
    }
    return true;
  }

  // ---------------------------------------------------------------- printing

  const DIGITS := "0123456789ABCDEF"

  /** What printf("%02X") writes for every byte. */
  function Printed(data: seq<Byte>): (s: string)
    ensures |s| == 2 * |data|
  {
    if data == [] then "" else [DIGITS[data[0] / 16], DIGITS[data[0] % 16]] + Printed(data[1..])
  }

  lemma DigitBack(v: nat)
    requires v < 16
    ensures DigitValue(DIGITS[v]) == Some(v)
  {
  }

  lemma {:induction false} PrintedAt(data: seq<Byte>, i: nat)
    requires i < |data|
    ensures Printed(data)[2 * i] == DIGITS[data[i] / 16] && Printed(data)[2 * i + 1] == DIGITS[data[i] % 16]
  {
    if i > 0 {
      PrintedAt(data[1..], i - 1);
    }
  }

  /** Reading undoes printing, for every byte string. */
  lemma ReadPrinted(data: seq<Byte>)
    ensures Readable(Printed(data)) && TokenData(Printed(data)) == data
  {
    var s := Printed(data);
    forall i | 0 <= i < |data| ensures HexPair(s, i) && PairValue(s, i) == data[i] {
      PrintedAt(data, i);
      DigitBack(data[i] / 16);
      DigitBack(data[i] % 16);
    }
  }

  /** The same digits but for the case of letters. */
  predicate SameDigits(s: string, t: string) {
    |s| == |t| && forall i :: 0 <= i < |s| ==> t[i] == s[i] || ('A' <= s[i] <= 'F' && t[i] as int == s[i] as int + 32)
  }

  /** The case of the digits makes no difference, so what was printed in capitals may be written small. */
  lemma CaseIgnored(s: string, t: string)
    requires SameDigits(s, t)
    ensures TokenData(t) == TokenData(s)
  {
    SameGoodPairs(s, t, 0);
  }

  lemma {:induction false} SameGoodPairs(s: string, t: string, from: nat)
    requires SameDigits(s, t) && 2 * from <= |s|
    ensures GoodPairs(t, from) == GoodPairs(s, from)
    ensures forall i :: from <= i < GoodPairs(s, from) ==> PairValue(t, i) == PairValue(s, i)
    decreases |s| - 2 * from
  {
    if 2 * from + 1 < |s| {
      SameGoodPairs(s, t, from + 1);
    }
  }

  /** Exactly these characters are digits. */
  lemma DigitsAre(c: char)
    ensures DigitValue(c).Some? <==> c in "0123456789ABCDEFabcdef"
  {
  }

  function Zeros(n: nat): (zeros: seq<Byte>)
    ensures |zeros| == n && forall i :: 0 <= i < n ==> zeros[i] == 0
  {
    seq(n, i => 0)
  }

  /** A tab behind the digits ends them, and with whatever follows it adds half as many zeros. */
  lemma TabsBehind(data: seq<Byte>, more: string)
    requires more == "" || more[0] == '\t'
    ensures TokenData(Printed(data) + more) == data + Zeros(|more| / 2)
  {
    var s := Printed(data) + more;
    forall i | 0 <= i < |data| ensures HexPair(s, i) && PairValue(s, i) == data[i] {
      PairPrinted(data, more, i);
    }
    if |s| / 2 > |data| {
      assert s[2 * |data|] == '\t' && !HexPair(s, |data|);
    }
    assert GoodPairs(s, 0) == |data|;
    assert TokenData(s) == data + Zeros(|more| / 2);
  }

  lemma PairPrinted(data: seq<Byte>, more: string, i: nat)
    requires i < |data|
    ensures HexPair(Printed(data) + more, i) && PairValue(Printed(data) + more, i) == data[i]
  {
    PrintedAt(data, i);
    DigitBack(data[i] / 16);
    DigitBack(data[i] % 16);
  }

  /** A token that begins with a tab gives zeros only. */
  lemma TabBefore(s: string)
    requires s != "" && s[0] == '\t'
    ensures TokenData(s) == Zeros(|s| / 2)
  {
    assert |s| > 1 ==> !HexPair(s, 0);
  }
}
