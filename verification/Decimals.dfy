// Decimal numbers in text, as Rust's formatting writes an integer and as `parse::<i32>` reads one.

module Decimals {
  import opened Common

  const ZERO: byte := 48
  const MINUS: byte := 45
  const PLUS: byte := 43

  function Digits(n: nat): seq<byte> {
    if n < 10 then [ZERO + n] else Digits(n / 10) + [ZERO + n % 10]
  }

  function Decimal(v: int): seq<byte> {
    if v < 0 then [MINUS] + Digits(-v) else Digits(v)
  }

  predicate IsDigit(b: byte) {
    ZERO <= b <= ZERO + 9
  }

  function DigitsValue(s: seq<byte>): Option<nat> {
    if s == [] then Some(0)
    else
      var high := DigitsValue(s[..|s| - 1]);
      var last := s[|s| - 1];
      if high.None? || !IsDigit(last) then None else Some(10 * high.value + (last - ZERO))
  }

  /** `parse::<i32>`: an optional sign, at least one digit, and a value in range. */
  function ParseInt(s: seq<byte>): Option<int> {
    var signed := s != [] && (s[0] == MINUS || s[0] == PLUS);
    var digits := if signed then s[1..] else s;
    var n := DigitsValue(digits);
    if digits == [] || n.None? then None
    else
      var v := if signed && s[0] == MINUS then 0 - n.value else n.value;
      if InRange(W32, v) then Some(v) else None
  }

  lemma {:induction false} DigitsBack(n: nat)
    ensures DigitsValue(Digits(n)) == Some(n)
    ensures Digits(n) != [] && forall i :: 0 <= i < |Digits(n)| ==> IsDigit(Digits(n)[i])
  {
    if n < 10 {
      assert Digits(n)[..0] == [];
    } else {
      DigitsBack(n / 10);
      assert Digits(n)[..|Digits(n)| - 1] == Digits(n / 10);
    }
  }

  lemma {:induction false} DigitsExactly(s: seq<byte>)
    ensures DigitsValue(s).Some? <==> forall i :: 0 <= i < |s| ==> 48 <= s[i] <= 57
    decreases |s|
  {
    if s != [] {
      var high := s[..|s| - 1];
      DigitsExactly(high);
      assert forall i :: 0 <= i < |high| ==> high[i] == s[i];
    }
  }

  /** What is read as a number: digits, at least one, behind a plus (43), a minus (45) or nothing, of a value in range. */
  lemma ParseIntExactly(sign: seq<byte>, digits: seq<byte>)
    requires sign == [] || sign == [43] || sign == [45]
    requires sign == [] && digits != [] ==> digits[0] != 43 && digits[0] != 45
    ensures DigitsValue(digits).None? ==> ParseInt(sign + digits) == None
    ensures DigitsValue(digits).Some? ==>
              var v := if sign == [45] then 0 - DigitsValue(digits).value else DigitsValue(digits).value;
              ParseInt(sign + digits) == if digits != [] && -0x8000_0000 <= v <= 0x7FFF_FFFF then Some(v) else None
  {
    var s := sign + digits;
    if sign == [] {
      assert s == digits;
    } else {
      assert s[1..] == digits && s[0] == sign[0];
    }
    hide DigitsValue;
  }

  /** Reading what was written gives the number back. */
  lemma DecimalBack(v: int)
    requires InRange(W32, v)
    ensures ParseInt(Decimal(v)) == Some(v)
    ensures forall i :: 0 <= i < |Decimal(v)| ==> Decimal(v)[i] == MINUS || IsDigit(Decimal(v)[i])
  {
    hide Digits, DigitsValue;
    DigitsBack(if v < 0 then -v else v);
    if v < 0 { assert Decimal(v)[1..] == Digits(-v); }
  }
}
