/** ASCII scanning shared by the decoders: digit runs, decimal numbers, first occurrences. */
module Ascii {
  import opened Core

  const SPACE: byte := 0x20
  const CR: byte := 0x0D
  const LF: byte := 0x0A
  const ZERO: byte := 0x30

  predicate IsDigit(b: byte) {
    0x30 <= b <= 0x39
  }

  /** Number of leading ASCII digits. */
  function DigitRun(buf: Bytes): (n: nat)
    ensures n <= |buf|
    ensures forall i :: 0 <= i < n ==> IsDigit(buf[i])
    ensures n < |buf| ==> !IsDigit(buf[n])
  {
    if buf == [] || !IsDigit(buf[0]) then 0 else 1 + DigitRun(buf[1..])
  }

  function Number(digits: Bytes): nat
    requires forall i :: 0 <= i < |digits| ==> IsDigit(digits[i])
  {
    if digits == [] then 0
    else
      assert IsDigit(digits[|digits| - 1]);
      10 * Number(digits[..|digits| - 1]) + (digits[|digits| - 1] as nat - 0x30)
  }

  /** First position of `b`, or the length when absent. */
  function Find(buf: Bytes, b: byte): (n: nat)
    ensures n <= |buf|
    ensures forall i :: 0 <= i < n ==> buf[i] != b
    ensures n < |buf| ==> buf[n] == b
  {
    if buf == [] || buf[0] == b then 0 else 1 + Find(buf[1..], b)
  }

  lemma {:induction false} DigitRunStays(buf: Bytes, more: Bytes)
    requires DigitRun(buf) < |buf|
    ensures DigitRun(buf + more) == DigitRun(buf)
  {
    if IsDigit(buf[0]) {
      assert (buf + more)[1..] == buf[1..] + more;
      DigitRunStays(buf[1..], more);
    }
  }

  lemma {:induction false} FindStays(buf: Bytes, more: Bytes, b: byte)
    requires Find(buf, b) < |buf|
    ensures Find(buf + more, b) == Find(buf, b)
  {
    if buf[0] != b {
      assert (buf + more)[1..] == buf[1..] + more;
      FindStays(buf[1..], more, b);
    }
  }

  /** Decimal digits of n, as `str(n).encode("ascii")`. */
  function Digits(n: nat): (d: Bytes)
    ensures d != []
    ensures forall i :: 0 <= i < |d| ==> IsDigit(d[i])
  {
    if n < 10 then [n as byte + ZERO] else Digits(n / 10) + [(n % 10) as byte + ZERO]
  }

  lemma {:induction false} NumberOfDigits(n: nat)
    ensures Number(Digits(n)) == n
  {
    if n < 10 {
      assert Digits(n)[..0] == [];
      assert Number([]) == 0;
    } else {
      NumberOfDigits(n / 10);
      assert Digits(n)[..|Digits(n)| - 1] == Digits(n / 10);
    }
  }

  lemma {:induction false} DigitRunOf(digits: Bytes, rest: Bytes)
    requires forall i :: 0 <= i < |digits| ==> IsDigit(digits[i])
    requires rest != [] && !IsDigit(rest[0])
    ensures DigitRun(digits + rest) == |digits|
  {
    if digits == [] {
      assert digits + rest == rest;
    } else {
      assert (digits + rest)[1..] == digits[1..] + rest;
      DigitRunOf(digits[1..], rest);
    }
  }

  lemma {:induction false} FindFirst(front: Bytes, more: Bytes, b: byte)
    requires b !in front
    ensures Find(front + [b] + more, b) == |front|
  {
    if front == [] {
      assert front + [b] + more == [b] + more;
    } else {
      assert (front + [b] + more)[1..] == front[1..] + [b] + more;
      FindFirst(front[1..], more, b);
    }
  }
}
