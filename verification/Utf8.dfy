/**
  UTF-8 (section 3 of RFC 3629) with the replacement-character reading of
  ill-formed input that Python's `bytes.decode("utf-8", "replace")` gives.
*/
module Utf8 {

  type Byte = b: int | 0 <= b < 0x100

  const REPLACEMENT: char := '\U{FFFD}'

  function EncodeChar(c: char): (bs: seq<Byte>)
    ensures 1 <= |bs| <= 4
  {
    var n := c as int;
    if n < 0x80 then [n]
    else if n < 0x800 then [0xC0 + n / 0x40, 0x80 + n % 0x40]
    else if n < 0x1_0000 then [0xE0 + n / 0x1000, 0x80 + n / 0x40 % 0x40, 0x80 + n % 0x40]
    else [0xF0 + n / 0x4_0000, 0x80 + n / 0x1000 % 0x40, 0x80 + n / 0x40 % 0x40, 0x80 + n % 0x40]
  }

  function Encode(s: string): (bs: seq<Byte>) {
    if s == "" then [] else EncodeChar(s[0]) + Encode(s[1..])
  }

  predicate Continuation(bs: seq<Byte>, i: nat) {
    i < |bs| && 0x80 <= bs[i] < 0xC0
  }

  /** The second byte has a narrower range after E0, ED, F0 and F4. */
  predicate SecondByte(bs: seq<Byte>)
    requires bs != []
  {
    && Continuation(bs, 1)
    && (bs[0] == 0xE0 ==> bs[1] >= 0xA0)
    && (bs[0] == 0xED ==> bs[1] < 0xA0)
    && (bs[0] == 0xF0 ==> bs[1] >= 0x90)
    && (bs[0] == 0xF4 ==> bs[1] < 0x90)
  }

  /** The first character and the bytes it takes up; an ill-formed start takes up
      as many bytes as could still have begun a character. */
  function DecodeOne(bs: seq<Byte>): (r: (char, nat))
    requires bs != []
    ensures 1 <= r.1 <= |bs|
  {
    var b: int := bs[0];
    if b < 0x80 then (b as char, 1)
    else if !(0xC2 <= b <= 0xF4) || !SecondByte(bs) then (REPLACEMENT, 1)
    else if b < 0xE0 then (Scalar(0, b - 0xC0, Tail(bs, 1)), 2)
    else if !Continuation(bs, 2) then (REPLACEMENT, 2)
    else if b < 0xF0 then (Scalar(b - 0xE0, Tail(bs, 1), Tail(bs, 2)), 3)
    else if !Continuation(bs, 3) then (REPLACEMENT, 3)
    else (Scalar((b - 0xF0) * 0x40 + Tail(bs, 1), Tail(bs, 2), Tail(bs, 3)), 4)
  }

  /** The six payload bits of a continuation byte. */
  function Tail(bs: seq<Byte>, i: nat): (t: int)
    requires Continuation(bs, i)
    ensures 0 <= t < 0x40
  {
    bs[i] - 0x80
  }

  function Scalar(high: int, mid: int, low: int): char
    requires 0 <= high && 0 <= mid < 0x40 && 0 <= low < 0x40
    requires high * 0x1000 + mid * 0x40 + low < 0xD800 || 0xE000 <= high * 0x1000 + mid * 0x40 + low < 0x11_0000
  {
    (high * 0x1000 + mid * 0x40 + low) as char
  }

  function Decode(bs: seq<Byte>): (s: string)
    ensures bs != [] ==> s != ""
    decreases |bs|
  {
    if bs == [] then ""
    else [DecodeOne(bs).0] + Decode(bs[DecodeOne(bs).1..])
  }

  lemma Sextets(n: nat)
    ensures n == n / 0x1000 * 0x1000 + n / 0x40 % 0x40 * 0x40 + n % 0x40
    ensures n / 0x1000 == n / 0x4_0000 * 0x40 + n / 0x1000 % 0x40
  {
  }

  lemma DecodeOneEncoded(c: char, rest: seq<Byte>)
    ensures DecodeOne(EncodeChar(c) + rest) == (c, |EncodeChar(c)|)
  {
    var n, bs := c as int, EncodeChar(c);
    var all := bs + rest;
    Sextets(n);
    assert all[0] == bs[0] && forall i :: 0 <= i < |bs| ==> all[i] == bs[i];
    if n >= 0x80 {
      assert SecondByte(all);
    }
  }

  /** Decoding undoes encoding. */
  lemma {:induction false} DecodeEncoded(s: string)
    ensures Decode(Encode(s)) == s
  {
    if s != "" {
      DecodeOneEncoded(s[0], Encode(s[1..]));
      var bs := Encode(s);
      assert bs[|EncodeChar(s[0])|..] == Encode(s[1..]);
      DecodeEncoded(s[1..]);
    }
  }

  predicate IsTail(b: Byte) {
    0x80 <= b < 0xC0
  }

  /** The forms of section 3 of RFC 3629: the lead byte tells the length, the bits of all
      bytes together are the code point. */
  lemma EncodeIsUtf8(c: char)
    ensures var n, bs := c as int, EncodeChar(c);
            && (forall i :: 0 < i < |bs| ==> IsTail(bs[i]))
            && (if n < 0x80 then bs == [n]
                else if n < 0x800 then
                  |bs| == 2 && 0xC2 <= bs[0] < 0xE0 && n == (bs[0] as int - 0xC0) * 0x40 + (bs[1] as int - 0x80)
                else if n < 0x1_0000 then
                  && |bs| == 3 && 0xE0 <= bs[0] < 0xF0
                  && n == (bs[0] as int - 0xE0) * 0x1000 + (bs[1] as int - 0x80) * 0x40 + (bs[2] as int - 0x80)
                else
                  && |bs| == 4 && 0xF0 <= bs[0] < 0xF5
                  && n == ((bs[0] as int - 0xF0) * 0x40 + (bs[1] as int - 0x80)) * 0x1000
                          + (bs[2] as int - 0x80) * 0x40 + (bs[3] as int - 0x80))
  {
    Sextets(c as int);
  }

  /** The first two bytes of a longer form. */
  lemma EncodedStart(c: char)
    requires c as int >= 0x80
    ensures SecondByte(EncodeChar(c)) && 0xC2 <= EncodeChar(c)[0] <= 0xF4
    ensures |EncodeChar(c)| == if EncodeChar(c)[0] < 0xE0 then 2 else if EncodeChar(c)[0] < 0xF0 then 3 else 4
  {
    EncodeIsUtf8(c);
  }

  /** Sextets put together are taken apart again. */
  lemma Apart(a: nat, b: nat, c: nat, d: nat)
    requires b < 0x40 && c < 0x40 && d < 0x40
    ensures var n := (a * 0x40 + b) * 0x1000 + c * 0x40 + d;
            && n % 0x40 == d && n / 0x40 % 0x40 == c && n / 0x1000 % 0x40 == b && n / 0x4_0000 == a
            && n / 0x1000 == a * 0x40 + b
  {
    var n := (a * 0x40 + b) * 0x1000 + c * 0x40 + d;
    assert n / 0x40 == (a * 0x40 + b) * 0x40 + c;
    assert n / 0x1000 == a * 0x40 + b;
  }

  /** The lead byte and all the bytes it asks for are in order. */
  predicate WellFormed(bs: seq<Byte>)
    requires bs != []
  {
    bs[0] < 0x80
    || (0xC2 <= bs[0] <= 0xF4 && SecondByte(bs)
        && (bs[0] >= 0xE0 ==> Continuation(bs, 2)) && (bs[0] >= 0xF0 ==> Continuation(bs, 3)))
  }

  lemma TwoRead(bs: seq<Byte>)
    requires bs != [] && 0xC2 <= bs[0] < 0xE0 && SecondByte(bs)
    ensures EncodeChar(DecodeOne(bs).0) == bs[..2]
  {
    Apart(0, 0, bs[0] as int - 0xC0, Tail(bs, 1));
    assert DecodeOne(bs).0 as int == (bs[0] - 0xC0) * 0x40 + Tail(bs, 1);
  }

  lemma ThreeRead(bs: seq<Byte>)
    requires bs != [] && 0xE0 <= bs[0] < 0xF0 && SecondByte(bs) && Continuation(bs, 2)
    ensures EncodeChar(DecodeOne(bs).0) == bs[..3]
  {
    var a, b, c := bs[0] as int - 0xE0, Tail(bs, 1), Tail(bs, 2);
    Apart(0, a, b, c);
    assert DecodeOne(bs).0 as int == a * 0x1000 + b * 0x40 + c;
  }

  lemma FourRead(bs: seq<Byte>)
    requires bs != [] && 0xF0 <= bs[0] <= 0xF4 && SecondByte(bs) && Continuation(bs, 2) && Continuation(bs, 3)
    ensures EncodeChar(DecodeOne(bs).0) == bs[..4]
  {
    var a, b, c, d := bs[0] as int - 0xF0, Tail(bs, 1), Tail(bs, 2), Tail(bs, 3);
    Apart(a, b, c, d);
    assert DecodeOne(bs).0 as int == (a * 0x40 + b) * 0x1000 + c * 0x40 + d;
  }

  /** A well-formed start is read as the character whose form it is. */
  lemma WellFormedIsEncoded(bs: seq<Byte>)
    requires bs != [] && WellFormed(bs)
    ensures EncodeChar(DecodeOne(bs).0) == bs[..DecodeOne(bs).1]
  {
    hide EncodeChar, Scalar;
    if bs[0] < 0x80 {
      OneRead(bs);
    } else if bs[0] < 0xE0 {
      TwoRead(bs);
    } else if bs[0] < 0xF0 {
      ThreeRead(bs);
    } else {
      FourRead(bs);
    }
  }

  lemma OneRead(bs: seq<Byte>)
    requires bs != [] && bs[0] < 0x80
    ensures EncodeChar(DecodeOne(bs).0) == bs[..1]
  {
  }

  /** Bytes that begin with no character's form are replaced. */
  lemma IllFormedIsReplaced(bs: seq<Byte>)
    requires bs != []
    ensures DecodeOne(bs).0 == REPLACEMENT || exists c :: EncodeChar(c) <= bs
    ensures WellFormed(bs) ==> exists c :: EncodeChar(c) <= bs
  {
    if WellFormed(bs) {
      WellFormedIsEncoded(bs);
      assert EncodeChar(DecodeOne(bs).0) <= bs;
    }
  }

  /** Some character's form begins with these bytes. */
  ghost predicate Begins(bs: seq<Byte>) {
    exists c :: bs <= EncodeChar(c)
  }

  /** Two good bytes of a longer form begin some character. */
  lemma TwoGood(bs: seq<Byte>)
    requires |bs| >= 2 && 0xE0 <= bs[0] <= 0xF4 && SecondByte(bs)
    ensures Begins(bs[..2])
  {
    var b := bs[0] as int;
    if b < 0xF0 {
      Apart(0, b - 0xE0, Tail(bs, 1), 0);
      var c := Scalar(b - 0xE0, Tail(bs, 1), 0);
      assert bs[..2] <= EncodeChar(c);
    } else {
      Apart(b - 0xF0, Tail(bs, 1), 0, 0);
      var c := Scalar((b - 0xF0) * 0x40 + Tail(bs, 1), 0, 0);
      assert bs[..2] <= EncodeChar(c);
    }
  }

  /** So do three good bytes of the longest form. */
  lemma ThreeGood(bs: seq<Byte>)
    requires |bs| >= 3 && 0xF0 <= bs[0] <= 0xF4 && SecondByte(bs) && Continuation(bs, 2)
    ensures Begins(bs[..3])
  {
    var b := bs[0] as int;
    Apart(b - 0xF0, Tail(bs, 1), Tail(bs, 2), 0);
    var d := Scalar((b - 0xF0) * 0x40 + Tail(bs, 1), Tail(bs, 2), 0);
    assert bs[..3] <= EncodeChar(d);
  }

  /** What begins a form of two bytes or more has a good second byte and good ones behind it. */
  lemma BadStart(bs: seq<Byte>)
    requires |bs| >= 2 && Begins(bs)
    ensures SecondByte(bs) && 0xC2 <= bs[0] <= 0xF4
    ensures |bs| <= (if bs[0] < 0xE0 then 2 else if bs[0] < 0xF0 then 3 else 4)
    ensures forall i :: 1 <= i < |bs| ==> Continuation(bs, i)
  {
    var c :| bs <= EncodeChar(c);
    assert c as int >= 0x80;
    EncodedStart(c);
    EncodeIsUtf8(c);
  }

  /** An ill-formed start takes up as many bytes as begin some character, at least one. */
  lemma LongestStartIsReplaced(bs: seq<Byte>)
    requires bs != [] && !(exists c :: EncodeChar(c) <= bs)
    ensures var n := DecodeOne(bs).1;
            && (n == 1 || Begins(bs[..n]))
            && (n < |bs| ==> !Begins(bs[..n + 1]))
  {
    hide Begins;
    var n := DecodeOne(bs).1;
    IllFormedIsReplaced(bs);
    if n == 2 {
      TwoGood(bs);
    } else if n == 3 {
      ThreeGood(bs);
    }
    if n < |bs| && Begins(bs[..n + 1]) {
      BadStart(bs[..n + 1]);
      StartsAlike(bs, n + 1);
    }
  }

  lemma StartsAlike(bs: seq<Byte>, n: nat)
    requires 2 <= n <= |bs| && SecondByte(bs[..n])
    requires forall i :: 1 <= i < n ==> Continuation(bs[..n], i)
    ensures SecondByte(bs) && forall i :: 1 <= i < n ==> Continuation(bs, i)
  {
    forall i | 1 <= i < n
      ensures Continuation(bs, i)
    {
      assert Continuation(bs[..n], i);
    }
  }
}
