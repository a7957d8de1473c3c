/**
  Which texts are JSON texts: those, and only those, that some syntax tree prints, with
  white space around them (RFC 8259, and the three numbers that Python adds).
*/
module JsonExactly {
  import opened Wrappers
  import opened HexDigits
  import opened Seqs
  import opened Json

  // ------------------------------------------------------- letters and tables

  const LOWER := "0123456789abcdef"
  const UPPER := "0123456789ABCDEF"
  const ESCAPES := map['"' := '"', '\\' := '\\', '/' := '/', 'b' := '\U{8}', 'f' := '\U{C}', 'n' := '\n',
                       'r' := '\r', 't' := '\t']

  /** A hexadecimal digit stands where the tables have it. */
  lemma DigitsListed(c: char, d: int)
    ensures HexValue(c) == Some(d) <==> 0 <= d < 16 && (c == LOWER[d] || c == UPPER[d])
  {
    assert c as int as char == c;
  }

  lemma EscapesListed(c: char)
    ensures Unescape(c) == if c in ESCAPES then Some(ESCAPES[c]) else None
    ensures IsWs(c) <==> c in " \t\n\r"
  {
  }

  /** Four digits, and two escapes that stand for one character beyond the first plane. */
  lemma UnitsAreUtf16(a: char, b: char, c: char, d: char, n: int)
    requires HexValue(a).Some? && HexValue(b).Some? && HexValue(c).Some? && HexValue(d).Some?
    ensures Hex4([a, b, c, d]) == Some(HexValue(a).value * 4096 + HexValue(b).value * 256 + HexValue(c).value * 16
                                       + HexValue(d).value)
    ensures 0x1_0000 <= n < 0x11_0000 ==>
              var high, low := 0xD800 + (n - 0x1_0000) / 0x400, 0xDC00 + (n - 0x1_0000) % 0x400;
              IsHigh(high) && IsLow(low) && FromPair(high, low) == n
  {
  }

  // ------------------------------------------------------------------ numbers

  predicate Digits(s: string) {
    forall i :: 0 <= i < |s| ==> '0' <= s[i] <= '9'
  }

  predicate Whole(s: string) {
    s == "0" || (s != "" && Digits(s) && s[0] != '0')
  }

  predicate Fraction(s: string) {
    s == "" || (|s| > 1 && s[0] == '.' && Digits(s[1..]))
  }

  predicate Exponent(s: string) {
    s == "" || (|s| > 1 && (s[0] == 'e' || s[0] == 'E')
                && (Digits(s[1..]) || (|s| > 2 && (s[1] == '+' || s[1] == '-') && Digits(s[2..]))))
  }

  lemma {:induction false} AllDigitsRun(s: string)
    ensures DigitRun(s) == |s| <==> Digits(s)
    ensures Digits(s[..DigitRun(s)])
  {
    if s != "" {
      AllDigitsRun(s[1..]);
      assert IsDigit(s[0]) ==> s[..DigitRun(s)] == [s[0]] + s[1..][..DigitRun(s[1..])];
      assert Digits(s) <==> IsDigit(s[0]) && Digits(s[1..]);
    }
  }

  lemma FractionExactly(s: string)
    ensures FractionLength(s) == |s| <==> Fraction(s)
  {
    if s != "" {
      AllDigitsRun(s[1..]);
    }
  }

  lemma ExponentExactly(s: string)
    ensures ExponentLength(s) == |s| <==> Exponent(s)
  {
    if s != "" && (s[0] == 'e' || s[0] == 'E') {
      var sign := SignLength(s[1..]);
      AllDigitsRun(s[1..][sign..]);
      if sign == 1 {
        assert s[1..][1..] == s[2..] && s[1..][0] == s[1];
        assert !Digits(s[1..]);
      } else {
        assert s[1..][0..] == s[1..];
        assert |s| > 1 ==> s[1..][0] == s[1];
      }
    }
  }

  lemma {:induction false} RunUpTo(a: string, b: string)
    requires Digits(a) && (b != "" ==> !IsDigit(b[0]))
    ensures DigitRun(a + b) == |a|
  {
    if a == "" {
      assert a + b == b;
    } else {
      assert (a + b)[1..] == a[1..] + b && (a + b)[0] == a[0];
      RunUpTo(a[1..], b);
    }
  }

  /** What comes behind the digits of a number does not go on with them. */
  lemma TailExactly(frac: string, exp: string)
    requires Fraction(frac) && Exponent(exp)
    ensures TailLength(frac + exp) == |frac + exp|
    ensures frac + exp != "" ==> !IsDigit((frac + exp)[0])
  {
    var s := frac + exp;
    ExponentExactly(exp);
    if frac == "" {
      assert s == exp;
    } else {
      assert s[1..] == frac[1..] + exp;
      RunUpTo(frac[1..], exp);
    }
    assert s[|frac|..] == exp;
  }

  /** The three parts of a number without its sign. */
  predicate InParts(s: string, whole: string, frac: string, exp: string) {
    Whole(whole) && Fraction(frac) && Exponent(exp) && s == whole + (frac + exp)
  }

  lemma PartsOf(s: string) returns (whole: string, frac: string, exp: string)
    requires s != "" && UnsignedLength(s) == |s|
    ensures InParts(s, whole, frac, exp)
  {
    hide ExponentLength, DigitRun;
    var n := IntegerLength(s);
    var t := s[n..];
    var f := FractionLength(t);
    IsWhole(s);
    CutFraction(t);
    ExponentExactly(t[f..]);
    whole, frac, exp := s[..n], t[..f], t[f..];
    assert s == s[..n] + t && t == t[..f] + t[f..];
  }

  lemma IsWhole(s: string)
    requires IntegerLength(s) > 0
    ensures Whole(s[..IntegerLength(s)])
  {
    AllDigitsRun(s);
    assert s[..IntegerLength(s)][0] == s[0];
  }

  lemma PartsMake(s: string, whole: string, frac: string, exp: string)
    requires InParts(s, whole, frac, exp)
    ensures s != "" && UnsignedLength(s) == |s| && IsDigit(s[0])
  {
    hide TailLength, Fraction, Exponent;
    TailExactly(frac, exp);
    assert s[0] == whole[0] && s[|whole|..] == frac + exp;
    WholeIsRead(whole, frac + exp);
  }

  lemma WholeIsRead(whole: string, rest: string)
    requires Whole(whole) && (rest != "" ==> !IsDigit(rest[0]))
    ensures IntegerLength(whole + rest) == |whole|
  {
    assert (whole + rest)[0] == whole[0];
    if whole != "0" {
      RunUpTo(whole, rest);
    }
  }

  lemma CutFraction(t: string)
    ensures Fraction(t[..FractionLength(t)])
  {
    if FractionLength(t) > 0 {
      AllDigitsRun(t[1..]);
      assert t[..FractionLength(t)][1..] == t[1..][..DigitRun(t[1..])];
    }
  }

  /** A number, as the standard's grammar has it, or one of the three that Python adds. */
  ghost predicate IsNumeral(text: string) {
    || text in {"NaN", "Infinity", "-Infinity"}
    || exists sign, whole, frac, exp :: Signed(text, sign, whole, frac, exp)
  }

  predicate Signed(text: string, sign: string, whole: string, frac: string, exp: string) {
    (sign == "" || sign == "-") && Whole(whole) && Fraction(frac) && Exponent(exp)
    && text == sign + (whole + (frac + exp))
  }

  lemma NumberExactly(text: string)
    ensures IsNumber(text) <==> IsNumeral(text)
  {
    hide Whole, Fraction, Exponent, UnsignedLength;
    if IsNumber(text) && text !in {"NaN", "Infinity", "-Infinity"} {
      SignedParts(text);
    }
    if sign, whole, frac, exp :| Signed(text, sign, whole, frac, exp) {
      PartsMake(whole + (frac + exp), whole, frac, exp);
      SignedLength(sign, whole + (frac + exp), text);
    }
  }

  lemma SignedParts(text: string)
    requires text != "" && NumberLength(text) == |text|
    ensures IsNumeral(text)
  {
    hide Whole, Fraction, Exponent, UnsignedLength;
    if text[0] == '-' {
      var whole, frac, exp := PartsOf(text[1..]);
      assert Signed(text, "-", whole, frac, exp);
    } else {
      var whole, frac, exp := PartsOf(text);
      assert Signed(text, "", whole, frac, exp);
    }
  }

  lemma SignedLength(sign: string, u: string, text: string)
    requires (sign == "" || sign == "-") && u != "" && UnsignedLength(u) == |u| && IsDigit(u[0]) && text == sign + u
    ensures NumberLength(text) == |text|
  {
    hide UnsignedLength;
    if sign == "-" {
      assert text[1..] == u;
    } else {
      assert text == u;
    }
  }

  // --------------------------------------------------- a number where it is read

  lemma {:induction false} RunCut(s: string, n: nat)
    requires DigitRun(s) <= n <= |s|
    ensures DigitRun(s[..n]) == DigitRun(s)
  {
    if s != "" && IsDigit(s[0]) {
      RunCut(s[1..], n - 1);
      assert s[..n][1..] == s[1..][..n - 1];
    }
  }

  lemma FractionCut(s: string, n: nat)
    requires FractionLength(s) <= n <= |s|
    ensures FractionLength(s[..n]) == FractionLength(s)
  {
    if s != "" && s[0] == '.' && n > 0 {
      RunCut(s[1..], n - 1);
      assert s[..n][1..] == s[1..][..n - 1];
    }
  }

  lemma ExponentCut(s: string)
    ensures ExponentLength(s[..ExponentLength(s)]) == ExponentLength(s)
  {
    var n := ExponentLength(s);
    if n > 0 {
      var sign := SignLength(s[1..]);
      RunCut(s[1..][sign..], n - 1 - sign);
      assert s[..n][1..] == s[1..][..n - 1];
      assert s[1..][..n - 1][sign..] == s[1..][sign..][..n - 1 - sign];
    }
  }

  lemma TailCut(s: string)
    ensures TailLength(s[..TailLength(s)]) == TailLength(s)
  {
    var f, n := FractionLength(s), TailLength(s);
    FractionCut(s, n);
    ExponentCut(s[f..]);
    assert s[..n][f..] == s[f..][..n - f];
  }

  lemma UnsignedCut(s: string)
    ensures UnsignedLength(s[..UnsignedLength(s)]) == UnsignedLength(s)
  {
    var w, n := IntegerLength(s), UnsignedLength(s);
    if n > 0 {
      if s[0] != '0' {
        RunCut(s, n);
      }
      TailCut(s[w..]);
      assert s[..n][w..] == s[w..][..n - w];
    }
  }

  /** What is read as a number is one by itself. */
  lemma NumberCut(s: string)
    requires NumberLength(s) > 0
    ensures IsNumber(s[..NumberLength(s)])
  {
    hide UnsignedLength;
    var n := NumberLength(s);
    if s[0] == '-' {
      UnsignedCut(s[1..]);
      assert s[..n][1..] == s[1..][..n - 1];
    } else {
      UnsignedCut(s);
    }
  }

  lemma WordRead(s: string, word: string)
    requires word <= s
    ensures s == word + s[|word|..]
  {
  }

  lemma ScalarText(s: string) returns (text: string)
    requires ReadScalar(s).Some?
    ensures s == text + ReadScalar(s).value.1
    ensures var v := ReadScalar(s).value.0;
            if v.Num? then v.text == text && IsNumber(text)
            else (v == Null || v == Bool(true) || v == Bool(false)) && LiteralText(v) == text
  {
    hide NumberLength;
    if "null" <= s {
      text := "null";
    } else if "true" <= s {
      text := "true";
    } else if "false" <= s {
      text := "false";
    } else if "NaN" <= s {
      text := "NaN";
    } else if "Infinity" <= s {
      text := "Infinity";
    } else if "-Infinity" <= s {
      text := "-Infinity";
    } else {
      NumberCut(s);
      text := s[..NumberLength(s)];
    }
    WordRead(s, text);
  }

  lemma ScalarIsPrinted(s: string) returns (v: Syntax)
    requires ReadScalar(s).Some?
    ensures Ok(v) && s == PrintTo(v, ReadScalar(s).value.1) && Value(v) == ReadScalar(s).value.0
  {
    hide ReadScalar, IsNumber;
    var value := ReadScalar(s).value.0;
    var text := ScalarText(s);
    v := if value.Num? then Number(text) else Literal(value);
  }

  // ------------------------------------------------------------------ strings

  lemma OnePiece(p: Piece, ps: seq<Piece>, rest: string)
    requires PieceOk(p) && PiecesOk(ps) && !(IsHexHigh(p) && ps != [] && IsHexLow(ps[0]))
    ensures PiecesOk([p] + ps) && PiecesTo([p] + ps, rest) == PieceTo(p, PiecesTo(ps, rest))
    ensures PiecesPoints([p] + ps) == [PieceUnit(p)] + PiecesPoints(ps)
  {
    Head(p, ps);
  }

  lemma TwoPieces(h: Piece, l: Piece, ps: seq<Piece>, rest: string)
    requires PieceOk(h) && PieceOk(l) && PiecesOk(ps) && IsHexHigh(h) && IsHexLow(l)
    ensures PiecesOk([h, l] + ps) && PiecesTo([h, l] + ps, rest) == PieceTo(h, PieceTo(l, PiecesTo(ps, rest)))
    ensures PiecesPoints([h, l] + ps) == [FromPair(PieceUnit(h), PieceUnit(l))] + PiecesPoints(ps)
  {
    var all := [h, l] + ps;
    assert all[0] == h && all[1] == l && all[1..] == [l] + ps && all[2..] == ps && ([l] + ps)[1..] == ps;
    assert ([l] + ps)[0] == l;
  }

  /** The digits of an escape, taken out of the text. */
  lemma HexTaken(s: string) returns (d: string)
    requires Hex4(s).Some?
    ensures |d| == 4 && s == d + s[4..] && Hex4(d) == Hex4(s) && PieceOk(Hex(d))
  {
    d := s[..4];
  }

  lemma {:induction false} StringIsPrinted(s: string) returns (ps: seq<Piece>)
    requires ReadString(s).Some?
    ensures PiecesOk(ps) && s == PiecesTo(ps, ['"'] + ReadString(s).value.1)
    ensures PiecesPoints(ps) == ReadString(s).value.0
    decreases |s|
  {
    var end := ['"'] + ReadString(s).value.1;
    if s[0] == '"' {
      ps := [];
    } else if s[0] == '\\' {
      ps := EscapeIsPrinted(s);
    } else {
      var more := StringIsPrinted(s[1..]);
      ps := [Plain(s[0])] + more;
      OnePiece(Plain(s[0]), more, end);
    }
  }

  lemma {:induction false} EscapeIsPrinted(s: string) returns (ps: seq<Piece>)
    requires ReadString(s).Some? && s[0] == '\\'
    ensures PiecesOk(ps) && s == PiecesTo(ps, ['"'] + ReadString(s).value.1)
    ensures PiecesPoints(ps) == ReadString(s).value.0
    decreases |s|, 0
  {
    hide Hex4, Unescape, FromPair, PiecesTo, PiecesPoints;
    var (n, t) := ReadEscape(s[1..]).value;
    var end := ['"'] + ReadString(s).value.1;
    var more := StringIsPrinted(t);
    if s[1] != 'u' {
      ps := [Short(s[1])] + more;
      OnePiece(Short(s[1]), more, end);
      assert s == ['\\'] + ([s[1]] + t);
    } else {
      var u := s[1..][1..];
      var d := HexTaken(u);
      assert s[1..][5..] == u[4..];
      if IsHigh(Hex4(u).value) && BeginsLow(u[4..]) {
        var low := HexTaken(u[4..][2..]);
        assert u[4..][2..][4..] == u[4..][6..];
        ps := [Hex(d), Hex(low)] + more;
        TwoPieces(Hex(d), Hex(low), more, end);
        assert u[4..] == ['\\'] + (['u'] + (low + t));
        assert s == ['\\'] + (['u'] + (d + u[4..]));
      } else {
        if more != [] {
          FirstPiece(more, end);
          BeginsLowExactly(more[0], PiecesTo(more[1..], end));
        }
        ps := [Hex(d)] + more;
        OnePiece(Hex(d), more, end);
        assert s == ['\\'] + (['u'] + (d + t));
      }
    }
  }

  lemma FirstPiece(ps: seq<Piece>, rest: string)
    requires ps != []
    ensures PiecesTo(ps, rest) == PieceTo(ps[0], PiecesTo(ps[1..], rest))
  {
  }

  // ------------------------------------------------------------------- values

  /** White space, taken off the text. */
  lemma {:induction false} Spaces(s: string) returns (ws: string)
    ensures AllWs(ws) && s == ws + SkipWs(s)
  {
    if s != "" && IsWs(s[0]) {
      var more := Spaces(s[1..]);
      ws := [s[0]] + more;
    } else {
      ws := "";
    }
  }

  lemma MoreSpace(es: seq<Elem>, ws: string, rest: string) returns (spaced: seq<Elem>)
    requires es != [] && ElemsOk(es) && es[0].lead == "" && AllWs(ws)
    ensures spaced != [] && ElemsOk(spaced) && ElemsTo(spaced, rest) == ws + ElemsTo(es, rest)
    ensures ElemValues(spaced) == ElemValues(es)
  {
    var e := es[0].(lead := ws);
    spaced := [e] + es[1..];
    Head(e, es[1..]);
    var tail := e.trail + (if |es| == 1 then [']'] + rest else [','] + ElemsTo(es[1..], rest));
    assert ElemsTo(es, rest) == "" + PrintTo(e.value, tail);
  }

  lemma MoreSpaceBefore(es: seq<Entry>, ws: string, rest: string) returns (spaced: seq<Entry>)
    requires es != [] && EntriesOk(es) && es[0].lead == "" && AllWs(ws)
    ensures spaced != [] && EntriesOk(spaced) && EntriesTo(spaced, rest) == ws + EntriesTo(es, rest)
    ensures EntryValues(spaced) == EntryValues(es)
  {
    var e := es[0].(lead := ws);
    spaced := [e] + es[1..];
    Head(e, es[1..]);
    var tail := e.trail + (if |es| == 1 then ['}'] + rest else [','] + EntriesTo(es[1..], rest));
    assert EntriesTo(es, rest)
        == "" + QuotedTo(e.key, e.afterKey + ([':'] + (e.beforeValue + PrintTo(e.value, tail))));
  }

  /** Whatever is read as a value is what some syntax tree prints, and the value is the tree's. */
  lemma {:induction false} ValueIsPrinted(s: string) returns (v: Syntax)
    requires ReadValue(s).Some?
    ensures Ok(v) && s == PrintTo(v, ReadValue(s).value.1) && Value(v) == ReadValue(s).value.0
    decreases |s|, 1
  {
    hide ReadScalar, ReadString, ReadElems, ReadEntries, SkipWs;
    var rest := ReadValue(s).value.1;
    if s[0] == '"' {
      var ps := StringIsPrinted(s[1..]);
      v := Text(ps);
      assert s == ['"'] + s[1..];
    } else if s[0] == '[' {
      v := ListIsPrinted(s);
    } else if s[0] == '{' {
      v := DictIsPrinted(s);
    } else {
      v := ScalarIsPrinted(s);
    }
  }

  lemma {:induction false} ListIsPrinted(s: string) returns (v: Syntax)
    requires ReadValue(s).Some? && s[0] == '['
    ensures Ok(v) && s == PrintTo(v, ReadValue(s).value.1) && Value(v) == ReadValue(s).value.0
    decreases |s|, 0
  {
    hide ReadElems, SkipWs, ElemsTo;
    var t, rest := SkipWs(s[1..]), ReadValue(s).value.1;
    var ws := Spaces(s[1..]);
    assert s == ['['] + s[1..];
    if t != "" && t[0] == ']' {
      v := List(ws, []);
      assert t == [']'] + t[1..];
    } else {
      var es := ElemsArePrinted(t);
      var spaced := MoreSpace(es, ws, rest);
      v := List("", spaced);
    }
  }

  lemma {:induction false} ElemsArePrinted(s: string) returns (es: seq<Elem>)
    requires ReadElems(s).Some?
    ensures es != [] && ElemsOk(es) && es[0].lead == ""
    ensures s == ElemsTo(es, ReadElems(s).value.1) && ElemValues(es) == ReadElems(s).value.0
    decreases |s|, 2
  {
    hide ReadValue, SkipWs;
    var t, rest := ReadValue(s).value.1, ReadElems(s).value.1;
    var v := ValueIsPrinted(s);
    var u := SkipWs(t);
    var trail := Spaces(t);
    var e := Elem("", v, trail);
    assert u == [u[0]] + u[1..];
    if u[0] == ']' {
      es := [e];
      assert es[1..] == [];
      assert ElemsTo(es, rest) == "" + PrintTo(v, trail + ([']'] + rest));
    } else {
      var ws := Spaces(u[1..]);
      var more := ElemsArePrinted(SkipWs(u[1..]));
      var spaced := MoreSpace(more, ws, rest);
      es := [e] + spaced;
      Head(e, spaced);
      assert ElemsTo(es, rest) == "" + PrintTo(v, trail + ([','] + ElemsTo(spaced, rest)));
    }
  }

  lemma {:induction false} DictIsPrinted(s: string) returns (v: Syntax)
    requires ReadValue(s).Some? && s[0] == '{'
    ensures Ok(v) && s == PrintTo(v, ReadValue(s).value.1) && Value(v) == ReadValue(s).value.0
    decreases |s|, 0
  {
    hide ReadEntries, SkipWs, EntriesTo;
    var t, rest := SkipWs(s[1..]), ReadValue(s).value.1;
    var ws := Spaces(s[1..]);
    assert s == ['{'] + s[1..];
    if t != "" && t[0] == '}' {
      v := Dict(ws, []);
      assert t == ['}'] + t[1..];
    } else {
      var es := EntriesArePrinted(t);
      var spaced := MoreSpaceBefore(es, ws, rest);
      v := Dict("", spaced);
    }
  }

  lemma {:induction false} EntriesArePrinted(s: string) returns (es: seq<Entry>)
    requires ReadEntries(s).Some?
    ensures es != [] && EntriesOk(es) && es[0].lead == ""
    ensures s == EntriesTo(es, ReadEntries(s).value.1) && EntryValues(es) == ReadEntries(s).value.0
    decreases |s|, 2
  {
    hide ReadValue, ReadString, SkipWs;
    var rest := ReadEntries(s).value.1;
    var key := StringIsPrinted(s[1..]);
    var a := ReadString(s[1..]).value.1;
    var b := SkipWs(a);
    var afterKey := Spaces(a);
    var beforeValue := Spaces(b[1..]);
    var text := SkipWs(b[1..]);
    var v := ValueIsPrinted(text);
    var t := ReadValue(text).value.1;
    var u := SkipWs(t);
    var trail := Spaces(t);
    var e := Entry("", key, afterKey, beforeValue, v, trail);
    assert s == ['"'] + s[1..] && b == [':'] + b[1..] && u == [u[0]] + u[1..];
    assert s == QuotedTo(key, afterKey + ([':'] + (beforeValue + PrintTo(v, trail + u))));
    if u[0] == '}' {
      es := [e];
      LastEntry(e, rest);
    } else {
      var ws := Spaces(u[1..]);
      var more := EntriesArePrinted(SkipWs(u[1..]));
      var spaced := MoreSpaceBefore(more, ws, rest);
      es := [e] + spaced;
      NextEntry(e, spaced, rest);
    }
  }

  lemma LastEntry(e: Entry, rest: string)
    requires PiecesOk(e.key) && Ok(e.value) && AllWs(e.lead) && AllWs(e.afterKey) && AllWs(e.beforeValue)
    requires AllWs(e.trail) && e.lead == ""
    ensures EntriesOk([e]) && EntryValues([e]) == [Member(PiecesText(e.key), Value(e.value))]
    ensures EntriesTo([e], rest)
            == QuotedTo(e.key, e.afterKey + ([':'] + (e.beforeValue + PrintTo(e.value, e.trail + (['}'] + rest)))))
  {
    assert [e][1..] == [];
    var q := QuotedTo(e.key, e.afterKey + ([':'] + (e.beforeValue + PrintTo(e.value, e.trail + (['}'] + rest)))));
    assert EntriesTo([e], rest) == "" + q;
  }

  lemma NextEntry(e: Entry, es: seq<Entry>, rest: string)
    requires PiecesOk(e.key) && Ok(e.value) && AllWs(e.lead) && AllWs(e.afterKey) && AllWs(e.beforeValue)
    requires AllWs(e.trail) && e.lead == "" && es != [] && EntriesOk(es)
    ensures EntriesOk([e] + es)
    ensures EntryValues([e] + es) == [Member(PiecesText(e.key), Value(e.value))] + EntryValues(es)
    ensures EntriesTo([e] + es, rest)
            == QuotedTo(e.key, e.afterKey + ([':'] + (e.beforeValue
                 + PrintTo(e.value, e.trail + ([','] + EntriesTo(es, rest))))))
  {
    Head(e, es);
    var q := QuotedTo(e.key, e.afterKey + ([':'] + (e.beforeValue
                        + PrintTo(e.value, e.trail + ([','] + EntriesTo(es, rest))))));
    assert EntriesTo([e] + es, rest) == "" + q;
  }

  // ------------------------------------------------------------- whole texts

  ghost predicate IsTextOf(s: string, v: Json) {
    exists lead, t, trail :: AllWs(lead) && AllWs(trail) && Ok(t) && s == lead + (Print(t) + trail) && Value(t) == v
  }

  /**
    A text is read as a value if and only if it is one of the ways to write that value,
    with white space around it.
  */
  lemma LoadsExactly(s: string, v: Json)
    ensures Loads(s) == Some(v) <==> IsTextOf(s, v)
  {
    hide ReadValue, SkipWs, PrintTo, Ok, Value;
    if Loads(s) == Some(v) {
      var lead := Spaces(s);
      var t := ValueIsPrinted(SkipWs(s));
      var rest := ReadValue(SkipWs(s)).value.1;
      var trail := Spaces(rest);
      assert trail + "" == trail && "" + rest == rest;
      PrintThen(t, "", rest);
      assert s == lead + (Print(t) + rest);
    }
    if lead, t, trail :| AllWs(lead) && AllWs(trail) && Ok(t) && s == lead + (Print(t) + trail) && Value(t) == v {
      PrintThen(t, "", trail);
      assert "" + trail == trail;
      SkipWsOver(lead, Print(t) + trail);
      StartsHere(t, trail);
      SpaceEnds(trail);
      ReadPrinted(t, trail);
    }
  }

  lemma StartsHere(t: Syntax, rest: string)
    requires Ok(t)
    ensures SkipWs(PrintTo(t, rest)) == PrintTo(t, rest)
  {
    PrintedHead(t, rest);
  }

  lemma SpaceEnds(trail: string)
    requires AllWs(trail)
    ensures Ends(trail) && SkipWs(trail) == ""
  {
    SkipWsOver(trail, "");
    assert trail + "" == trail;
  }
}
