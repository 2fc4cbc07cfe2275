/** The character tests of psplink/util.c. */
module Chars {

  function Upcase(c: char): char {
    if 'a' <= c <= 'z' then c - 'a' + 'A' else c
  }

  predicate IsDecimal(c: char) {
    '0' <= c <= '9'
  }

  predicate IsAlnum(c: char) {
    'A' <= Upcase(c) <= 'Z' || IsDecimal(c)
  }

  predicate IsHex(c: char) {
    IsDecimal(c) || 'A' <= Upcase(c) <= 'F'
  }

  predicate IsSpace(c: char) {
    c == ' ' || c == '\t' || c == '\n' || c == '\r'
  }

  /** The value of a hexadecimal digit; of a decimal or octal one alike. */
  function DigitValue(c: char): nat
    requires IsHex(c)
  {
    if IsDecimal(c) then (c - '0') as int else (Upcase(c) - 'A') as int + 10
  }

  predicate IsDigit(c: char, base: nat) {
    IsHex(c) && DigitValue(c) < base
  }

  /** The digit of a value, as a caller would write it. */
  function DigitFor(d: nat): (c: char)
    requires d < 16
    ensures IsHex(c) && DigitValue(c) == d
  {
    "0123456789abcdef"[d]
  }
}
