/**
  Hexadecimal digits.
*/
module HexDigits {
  import opened Wrappers

  function HexValue(c: char): (v: Option<int>)
    ensures v.Some? ==> 0 <= v.value < 16
  {
    if '0' <= c <= '9' then Some(c as int - '0' as int)
    else if 'A' <= c <= 'F' then Some(c as int - 'A' as int + 10)
    else if 'a' <= c <= 'f' then Some(c as int - 'a' as int + 10)
    else None
  }

  /** The digit for d, `ten` being the letter that stands for ten. */
  function HexDigit(d: int, ten: char): (c: char)
    requires 0 <= d < 16 && (ten == 'A' || ten == 'a')
    ensures HexValue(c) == Some(d) && c < '\U{80}'
  {
    if d < 10 then ('0' as int + d) as char else (ten as int + (d - 10)) as char
  }
}
