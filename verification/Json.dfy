/**
  JSON texts (sections 2 to 7 of RFC 8259): a syntax tree for every way of writing
  a value, its printed form, and a reader.
*/
module Json {
  import opened Wrappers
  import opened HexDigits
  import opened Seqs

  /** Numbers are kept as written. `Wild` is a text with a lone surrogate in it, which
      an escape can produce, given by its code points. Keys are texts of either kind. */
  datatype Json =
    | Null
    | Bool(b: bool)
    | Num(text: string)
    | Str(s: string)
    | Wild(points: seq<int>)
    | Arr(items: seq<Json>)
    | Obj(members: seq<Member>)

  datatype Member = Member(key: Json, value: Json)

  // ------------------------------------------------------------ lexical parts

  predicate IsWs(c: char) {
    c == ' ' || c == '\t' || c == '\n' || c == '\r'
  }

  predicate AllWs(s: string) {
    forall i :: 0 <= i < |s| ==> IsWs(s[i])
  }

  predicate IsDigit(c: char) {
    '0' <= c <= '9'
  }

  /** The number written by the four hexadecimal digits at the head of `s`. */
  function Hex4(s: string): (v: Option<int>)
    ensures v.Some? ==> |s| >= 4 && 0 <= v.value < 0x1_0000
  {
    if |s| >= 4 && HexValue(s[0]).Some? && HexValue(s[1]).Some? && HexValue(s[2]).Some? && HexValue(s[3]).Some? then
      Some(((HexValue(s[0]).value * 16 + HexValue(s[1]).value) * 16 + HexValue(s[2]).value) * 16 + HexValue(s[3]).value)
    else None
  }

  /** The character behind a two-character escape. */
  function Unescape(c: char): Option<char> {
    if c == '"' || c == '\\' || c == '/' then Some(c)
    else if c == 'b' then Some('\U{8}')
    else if c == 'f' then Some('\U{C}')
    else if c == 'n' then Some('\n')
    else if c == 'r' then Some('\r')
    else if c == 't' then Some('\t')
    else None
  }

  predicate IsHigh(n: int) {
    0xD800 <= n < 0xDC00
  }

  predicate IsLow(n: int) {
    0xDC00 <= n < 0xE000
  }

  function FromPair(high: int, low: int): (n: int)
    requires IsHigh(high) && IsLow(low)
    ensures IsScalar(n)
  {
    0x1_0000 + (high - 0xD800) * 0x400 + (low - 0xDC00)
  }

  /** The code points that characters have. */
  predicate IsScalar(n: int) {
    0 <= n < 0xD800 || 0xE000 <= n < 0x11_0000
  }

  predicate AllScalar(points: seq<int>) {
    forall i :: 0 <= i < |points| ==> IsScalar(points[i])
  }

  function Chars(points: seq<int>): (s: string)
    requires AllScalar(points)
    ensures |s| == |points| && forall i :: 0 <= i < |s| ==> s[i] as int == points[i]
  {
    seq(|points|, i requires 0 <= i < |points| => points[i] as char)
  }

  /** The text with these code points. */
  function TextOf(points: seq<int>): Json {
    if AllScalar(points) then Str(Chars(points)) else Wild(points)
  }

  // ------------------------------------------------------------- syntax trees

  datatype Piece =
    | Plain(c: char)
    | Short(e: char)                       // \e
    | Hex(digits: string)                  // \uXXXX

  datatype Syntax =
    | Literal(value: Json)                 // null, true, false
    | Number(text: string)
    | Text(pieces: seq<Piece>)
    | List(gap: string, elems: seq<Elem>)
    | Dict(gap: string, entries: seq<Entry>)

  /** White space before and after each part; `gap` is used by empty brackets. */
  datatype Elem = Elem(lead: string, value: Syntax, trail: string)
  datatype Entry = Entry(lead: string, key: seq<Piece>, afterKey: string,
                         beforeValue: string, value: Syntax, trail: string)

  predicate PieceOk(p: Piece) {
    match p
    case Plain(c) => c != '"' && c != '\\' && c as int >= 0x20
    case Short(e) => Unescape(e).Some?
    case Hex(d) => |d| == 4 && Hex4(d).Some?
  }

  predicate PiecesOk(ps: seq<Piece>) {
    forall i :: 0 <= i < |ps| ==> PieceOk(ps[i])
  }

  /** Python's reader knows three more numbers. */
  predicate IsNumber(text: string) {
    text == "NaN" || text == "Infinity" || text == "-Infinity" || (text != "" && NumberLength(text) == |text|)
  }

  predicate Ok(v: Syntax)
    decreases v, 1
  {
    match v
    case Literal(value) => value == Null || value == Bool(true) || value == Bool(false)
    case Number(text) => IsNumber(text)
    case Text(pieces) => PiecesOk(pieces)
    case List(gap, elems) => AllWs(gap) && ElemsOk(elems)
    case Dict(gap, entries) => AllWs(gap) && EntriesOk(entries)
  }

  predicate ElemsOk(es: seq<Elem>)
    decreases es, 0
  {
    es == [] || (AllWs(es[0].lead) && Ok(es[0].value) && AllWs(es[0].trail) && ElemsOk(es[1..]))
  }

  predicate EntriesOk(es: seq<Entry>)
    decreases es, 0
  {
    es == [] ||
    (AllWs(es[0].lead) && PiecesOk(es[0].key) && AllWs(es[0].afterKey) && AllWs(es[0].beforeValue)
     && Ok(es[0].value) && AllWs(es[0].trail) && EntriesOk(es[1..]))
  }

  // ---------------------------------------------------------------- printing

  /** Every printer takes what comes after it. */
  function PieceTo(p: Piece, rest: string): string {
    match p
    case Plain(c) => [c] + rest
    case Short(e) => ['\\'] + ([e] + rest)
    case Hex(d) => ['\\'] + (['u'] + (d + rest))
  }

  function PiecesTo(ps: seq<Piece>, rest: string): string {
    if ps == [] then rest else PieceTo(ps[0], PiecesTo(ps[1..], rest))
  }

  function QuotedTo(ps: seq<Piece>, rest: string): string {
    ['"'] + PiecesTo(ps, ['"'] + rest)
  }

  function LiteralText(v: Json): string {
    if v == Null then "null" else if v == Bool(true) then "true" else "false"
  }

  function PrintTo(v: Syntax, rest: string): string
    decreases v, 1
  {
    match v
    case Literal(value) => LiteralText(value) + rest
    case Number(text) => text + rest
    case Text(pieces) => QuotedTo(pieces, rest)
    case List(gap, elems) => ['['] + (if elems == [] then gap + ([']'] + rest) else ElemsTo(elems, rest))
    case Dict(gap, entries) => ['{'] + (if entries == [] then gap + (['}'] + rest) else EntriesTo(entries, rest))
  }

  function ElemsTo(es: seq<Elem>, rest: string): string
    requires es != []
    decreases es, 0
  {
    var tail := es[0].trail + (if |es| == 1 then [']'] + rest else [','] + ElemsTo(es[1..], rest));
    es[0].lead + PrintTo(es[0].value, tail)
  }

  function EntriesTo(es: seq<Entry>, rest: string): string
    requires es != []
    decreases es, 0
  {
    var e := es[0];
    var tail := e.trail + (if |es| == 1 then ['}'] + rest else [','] + EntriesTo(es[1..], rest));
    e.lead + QuotedTo(e.key, e.afterKey + ([':'] + (e.beforeValue + PrintTo(e.value, tail))))
  }

  function Print(v: Syntax): string {
    PrintTo(v, "")
  }

  // ----------------------------------------------------------------- meaning

  function PieceUnit(p: Piece): int
    requires PieceOk(p)
  {
    match p
    case Plain(c) => c as int
    case Short(e) => Unescape(e).value as int
    case Hex(d) => Hex4(d).value
  }

  predicate IsHexHigh(p: Piece) {
    p.Hex? && Hex4(p.digits).Some? && IsHigh(Hex4(p.digits).value)
  }

  predicate IsHexLow(p: Piece) {
    p.Hex? && Hex4(p.digits).Some? && IsLow(Hex4(p.digits).value)
  }

  /** The code points written by `ps`: two escapes that form a surrogate pair are one. */
  function PiecesPoints(ps: seq<Piece>): seq<int>
    requires PiecesOk(ps)
  {
    if ps == [] then []
    else if |ps| > 1 && IsHexHigh(ps[0]) && IsHexLow(ps[1]) then
      [FromPair(PieceUnit(ps[0]), PieceUnit(ps[1]))] + PiecesPoints(ps[2..])
    else [PieceUnit(ps[0])] + PiecesPoints(ps[1..])
  }

  function PiecesText(ps: seq<Piece>): Json
    requires PiecesOk(ps)
  {
    TextOf(PiecesPoints(ps))
  }

  function Value(v: Syntax): Json
    requires Ok(v)
    decreases v, 1
  {
    match v
    case Literal(value) => value
    case Number(text) => Num(text)
    case Text(pieces) => PiecesText(pieces)
    case List(gap, elems) => Arr(ElemValues(elems))
    case Dict(gap, entries) => Obj(EntryValues(entries))
  }

  function ElemValues(es: seq<Elem>): seq<Json>
    requires ElemsOk(es)
    decreases es, 0
  {
    if es == [] then [] else [Value(es[0].value)] + ElemValues(es[1..])
  }

  function EntryValues(es: seq<Entry>): seq<Member>
    requires EntriesOk(es)
    decreases es, 0
  {
    if es == [] then [] else [Member(PiecesText(es[0].key), Value(es[0].value))] + EntryValues(es[1..])
  }

  // ----------------------------------------------------------------- reading

  function SkipWs(s: string): (t: string)
    ensures |t| <= |s|
  {
    if s != "" && IsWs(s[0]) then SkipWs(s[1..]) else s
  }

  function DigitRun(s: string): (n: nat)
    ensures n <= |s|
  {
    if s != "" && IsDigit(s[0]) then 1 + DigitRun(s[1..]) else 0
  }

  function FractionLength(s: string): (n: nat)
    ensures n <= |s|
  {
    if s != "" && s[0] == '.' && DigitRun(s[1..]) > 0 then 1 + DigitRun(s[1..]) else 0
  }

  function SignLength(s: string): (n: nat)
    ensures n <= |s|
  {
    if s != "" && (s[0] == '+' || s[0] == '-') then 1 else 0
  }

  function ExponentLength(s: string): (n: nat)
    ensures n <= |s|
  {
    if s != "" && (s[0] == 'e' || s[0] == 'E') then
      var sign := SignLength(s[1..]);
      var digits := DigitRun(s[1..][sign..]);
      if digits > 0 then 1 + sign + digits else 0
    else 0
  }

  /** No leading zeros. */
  function IntegerLength(s: string): (n: nat)
    ensures n <= |s|
  {
    if s != "" && s[0] == '0' then 1 else DigitRun(s)
  }

  function TailLength(s: string): (n: nat)
    ensures n <= |s|
  {
    FractionLength(s) + ExponentLength(s[FractionLength(s)..])
  }

  function UnsignedLength(s: string): (n: nat)
    ensures n <= |s|
  {
    if IntegerLength(s) == 0 then 0 else IntegerLength(s) + TailLength(s[IntegerLength(s)..])
  }

  /** Length of the longest number at the head of `s`; 0 when there is none. */
  function NumberLength(s: string): (n: nat)
    ensures n <= |s|
  {
    if s != "" && s[0] == '-' then (if UnsignedLength(s[1..]) == 0 then 0 else 1 + UnsignedLength(s[1..]))
    else UnsignedLength(s)
  }

  /** An escape for the second half of a surrogate pair. */
  predicate BeginsLow(t: string) {
    |t| >= 2 && t[0] == '\\' && t[1] == 'u' && Hex4(t[2..]).Some? && IsLow(Hex4(t[2..]).value)
  }

  function ReadEscape(s: string): (r: Option<(int, string)>)
    ensures r.Some? ==> |r.value.1| < |s|
  {
    if s == "" then None
    else if s[0] == 'u' then
      var n := Hex4(s[1..]);
      if n.None? then None
      else
        var t := s[5..];
        if IsHigh(n.value) && BeginsLow(t) then Some((FromPair(n.value, Hex4(t[2..]).value), t[6..]))
        else Some((n.value, t))
    else if Unescape(s[0]).Some? then Some((Unescape(s[0]).value as int, s[1..]))
    else None
  }

  /** The code points of the rest of a string, its opening quote already read. */
  function ReadString(s: string): (r: Option<(seq<int>, string)>)
    ensures r.Some? ==> |r.value.1| < |s|
    decreases |s|
  {
    if s == "" || s[0] as int < 0x20 then None
    else if s[0] == '"' then Some(([], s[1..]))
    else if s[0] == '\\' then
      match ReadEscape(s[1..])
      case None => None
      case Some((n, t)) => ConsPoint(n, ReadString(t))
    else ConsPoint(s[0] as int, ReadString(s[1..]))
  }

  function ConsPoint(n: int, r: Option<(seq<int>, string)>): Option<(seq<int>, string)> {
    match r case None => None case Some((points, t)) => Some(([n] + points, t))
  }

  /** A literal or a number. */
  function ReadScalar(s: string): (r: Option<(Json, string)>)
    ensures r.Some? ==> |r.value.1| < |s|
  {
    if "null" <= s then Some((Null, s[4..]))
    else if "true" <= s then Some((Bool(true), s[4..]))
    else if "false" <= s then Some((Bool(false), s[5..]))
    else if "NaN" <= s then Some((Num("NaN"), s[3..]))
    else if "Infinity" <= s then Some((Num("Infinity"), s[8..]))
    else if "-Infinity" <= s then Some((Num("-Infinity"), s[9..]))
    else if NumberLength(s) > 0 then Some((Num(s[..NumberLength(s)]), s[NumberLength(s)..]))
    else None
  }

  function ReadValue(s: string): (r: Option<(Json, string)>)
    ensures r.Some? ==> |r.value.1| < |s|
    decreases |s|, 1
  {
    if s == "" then None
    else if s[0] == '"' then
      match ReadString(s[1..]) case None => None case Some((points, rest)) => Some((TextOf(points), rest))
    else if s[0] == '[' then
      var t := SkipWs(s[1..]);
      if t != "" && t[0] == ']' then Some((Arr([]), t[1..]))
      else match ReadElems(t) case None => None case Some((items, rest)) => Some((Arr(items), rest))
    else if s[0] == '{' then
      var t := SkipWs(s[1..]);
      if t != "" && t[0] == '}' then Some((Obj([]), t[1..]))
      else match ReadEntries(t) case None => None case Some((members, rest)) => Some((Obj(members), rest))
    else ReadScalar(s)
  }

  function ReadElems(s: string): (r: Option<(seq<Json>, string)>)
    ensures r.Some? ==> |r.value.1| < |s|
    decreases |s|, 2
  {
    match ReadValue(s)
    case None => None
    case Some((v, t)) =>
      var u := SkipWs(t);
      if u == "" then None
      else if u[0] == ']' then Some(([v], u[1..]))
      else if u[0] == ',' then
        match ReadElems(SkipWs(u[1..])) case None => None case Some((vs, rest)) => Some(([v] + vs, rest))
      else None
  }

  function ReadEntries(s: string): (r: Option<(seq<Member>, string)>)
    ensures r.Some? ==> |r.value.1| < |s|
    decreases |s|, 2
  {
    if s == "" || s[0] != '"' then None
    else match ReadString(s[1..])
      case None => None
      case Some((key, a)) =>
        var b := SkipWs(a);
        if b == "" || b[0] != ':' then None
        else match ReadValue(SkipWs(b[1..]))
          case None => None
          case Some((v, t)) =>
            var u := SkipWs(t);
            if u == "" then None
            else if u[0] == '}' then Some(([Member(TextOf(key), v)], u[1..]))
            else if u[0] == ',' then
              match ReadEntries(SkipWs(u[1..]))
              case None => None
              case Some((ms, rest)) => Some(([Member(TextOf(key), v)] + ms, rest))
            else None
  }

  /** `json.loads`: one value, white space around it, and nothing else. */
  function Loads(s: string): Option<Json> {
    match ReadValue(SkipWs(s))
    case None => None
    case Some((v, rest)) => if SkipWs(rest) == "" then Some(v) else None
  }

  // ------------------------------------------------ the reader undoes printing

  lemma {:induction false} SkipWsOver(ws: string, rest: string)
    requires AllWs(ws)
    ensures SkipWs(ws + rest) == SkipWs(rest)
  {
    if ws == "" {
      assert ws + rest == rest;
    } else {
      assert (ws + rest)[1..] == ws[1..] + rest;
      SkipWsOver(ws[1..], rest);
    }
  }

  /** The white space ends where something else begins. */
  lemma SkipWsTo(ws: string, rest: string)
    requires AllWs(ws) && (rest == "" || !IsWs(rest[0]))
    ensures SkipWs(ws + rest) == rest
  {
    SkipWsOver(ws, rest);
  }

  lemma Hex4Ahead(d: string, rest: string)
    requires |d| == 4 && Hex4(d).Some?
    ensures Hex4(d + rest) == Hex4(d) && (d + rest)[4..] == rest
  {
  }

  lemma ReadEscapeHex(d: string, rest: string)
    requires PieceOk(Hex(d)) && !(IsHexHigh(Hex(d)) && BeginsLow(rest))
    ensures ReadEscape(['u'] + (d + rest)) == Some((Hex4(d).value, rest))
  {
    Hex4Ahead(d, rest);
    Head('u', d + rest);
    assert (['u'] + (d + rest))[5..] == (d + rest)[4..];
  }

  lemma ReadEscapePair(h: string, l: string, rest: string)
    requires PieceOk(Hex(h)) && PieceOk(Hex(l)) && IsHexHigh(Hex(h)) && IsHexLow(Hex(l))
    ensures ReadEscape(['u'] + (h + PieceTo(Hex(l), rest))) == Some((FromPair(Hex4(h).value, Hex4(l).value), rest))
  {
    var t := PieceTo(Hex(l), rest);
    Hex4Ahead(h, t);
    Hex4Ahead(l, rest);
    Head('u', h + t);
    assert (['u'] + (h + t))[5..] == t;
    assert t[2..] == l + rest && t[6..] == rest;
  }

  /** Only an escape for a low surrogate begins like one. */
  lemma BeginsLowExactly(p: Piece, rest: string)
    requires PieceOk(p)
    ensures BeginsLow(PieceTo(p, rest)) <==> IsHexLow(p)
    ensures !BeginsLow(['"'] + rest)
  {
    match p
    case Plain(c) =>
    case Short(e) =>
      Head('\\', [e] + rest);
      assert e != 'u';
    case Hex(d) =>
      Hex4Ahead(d, rest);
      assert PieceTo(p, rest)[2..] == d + rest;
  }

  lemma ReadPiece(p: Piece, rest: string)
    requires PieceOk(p) && !(IsHexHigh(p) && BeginsLow(rest))
    ensures ReadString(PieceTo(p, rest)) == ConsPoint(PieceUnit(p), ReadString(rest))
  {
    match p
    case Plain(c) =>
      Head(c, rest);
    case Short(e) =>
      Head('\\', [e] + rest);
      Head(e, rest);
      assert e != 'u';
    case Hex(d) =>
      Head('\\', ['u'] + (d + rest));
      ReadEscapeHex(d, rest);
  }

  lemma ReadPair(h: Piece, l: Piece, rest: string)
    requires PieceOk(h) && PieceOk(l) && IsHexHigh(h) && IsHexLow(l)
    ensures ReadString(PieceTo(h, PieceTo(l, rest)))
            == ConsPoint(FromPair(PieceUnit(h), PieceUnit(l)), ReadString(rest))
  {
    Head('\\', ['u'] + (h.digits + PieceTo(l, rest)));
    ReadEscapePair(h.digits, l.digits, rest);
  }

  lemma {:induction false} ReadPieces(ps: seq<Piece>, rest: string)
    requires PiecesOk(ps)
    ensures ReadString(PiecesTo(ps, ['"'] + rest)) == Some((PiecesPoints(ps), rest))
  {
    hide ReadString, PieceTo, PieceUnit, IsHexHigh, IsHexLow, PieceOk, BeginsLow, FromPair;
    if ps == [] {
      StringEnds(rest);
    } else if |ps| > 1 && IsHexHigh(ps[0]) && IsHexLow(ps[1]) {
      assert ps[1..][0] == ps[1] && ps[1..][1..] == ps[2..];
      ReadPieces(ps[2..], rest);
      ReadPair(ps[0], ps[1], PiecesTo(ps[2..], ['"'] + rest));
    } else {
      var tail := PiecesTo(ps[1..], ['"'] + rest);
      ReadPieces(ps[1..], rest);
      if |ps| > 1 {
        BeginsLowExactly(ps[1], PiecesTo(ps[1..][1..], ['"'] + rest));
      } else {
        BeginsLowExactly(ps[0], rest);
      }
      ReadPiece(ps[0], tail);
    }
  }

  lemma StringEnds(rest: string)
    ensures ReadString(['"'] + rest) == Some(([], rest))
  {
    Head('"', rest);
  }

  /** What may stand behind a value: never something a number could go on with. */
  predicate Ends(rest: string) {
    rest == "" || !(IsDigit(rest[0]) || rest[0] == '.' || rest[0] == 'e' || rest[0] == 'E')
  }

  lemma {:induction false} DigitRunAhead(s: string, rest: string)
    requires rest == "" || !IsDigit(rest[0])
    ensures DigitRun(s + rest) == DigitRun(s)
  {
    if s == "" {
      assert s + rest == rest;
    } else {
      assert (s + rest)[1..] == s[1..] + rest;
      DigitRunAhead(s[1..], rest);
    }
  }

  lemma FractionAhead(s: string, rest: string)
    requires Ends(rest)
    ensures FractionLength(s + rest) == FractionLength(s)
  {
    if s == "" {
      assert s + rest == rest;
    } else {
      assert (s + rest)[1..] == s[1..] + rest;
      DigitRunAhead(s[1..], rest);
    }
  }

  lemma ExponentAhead(s: string, rest: string)
    requires Ends(rest)
    ensures ExponentLength(s) == |s| ==> ExponentLength(s + rest) == |s|
  {
    if s == "" {
      assert s + rest == rest;
    } else if ExponentLength(s) == |s| {
      var t := s[1..];
      assert (s + rest)[1..] == t + rest;
      assert t != "";
      assert SignLength(t + rest) == SignLength(t);
      assert (t + rest)[SignLength(t)..] == t[SignLength(t)..] + rest;
      DigitRunAhead(t[SignLength(t)..], rest);
    }
  }

  lemma TailAhead(s: string, rest: string)
    requires Ends(rest) && TailLength(s) == |s|
    ensures TailLength(s + rest) == |s|
  {
    var f := FractionLength(s);
    FractionAhead(s, rest);
    assert (s + rest)[f..] == s[f..] + rest;
    ExponentAhead(s[f..], rest);
  }

  lemma UnsignedAhead(s: string, rest: string)
    requires Ends(rest) && s != "" && UnsignedLength(s) == |s|
    ensures UnsignedLength(s + rest) == |s| && IsDigit(s[0])
  {
    DigitRunAhead(s, rest);
    var whole := IntegerLength(s);
    assert IntegerLength(s + rest) == whole;
    assert (s + rest)[whole..] == s[whole..] + rest;
    TailAhead(s[whole..], rest);
  }

  lemma NumberAhead(s: string, rest: string)
    requires Ends(rest) && s != "" && NumberLength(s) == |s|
    ensures NumberLength(s + rest) == |s| && (s[0] == '-' || IsDigit(s[0]))
  {
    hide UnsignedLength;
    if s[0] == '-' {
      assert (s + rest)[1..] == s[1..] + rest;
      UnsignedAhead(s[1..], rest);
    } else {
      UnsignedAhead(s, rest);
    }
  }

  lemma UnsignedBeginsWithDigit(s: string)
    requires UnsignedLength(s) > 0
    ensures s != "" && IsDigit(s[0])
  {
  }

  lemma NumberIsRead(s: string)
    requires s != "" && (s[0] == '-' || IsDigit(s[0])) && NumberLength(s) > 0
    ensures ReadScalar(s) == Some((Num(s[..NumberLength(s)]), s[NumberLength(s)..]))
  {
    hide UnsignedLength;
    assert "null"[0] != s[0] && "true"[0] != s[0] && "false"[0] != s[0];
    assert "NaN"[0] != s[0] && "Infinity"[0] != s[0];
    if s[0] == '-' {
      UnsignedBeginsWithDigit(s[1..]);
      assert s[1] == s[1..][0] && "-Infinity"[1] == 'I';
    }
  }

  lemma ScalarIsRead(s: string)
    requires s != "" && s[0] != '"' && s[0] != '[' && s[0] != '{'
    ensures ReadValue(s) == ReadScalar(s)
  {
  }

  lemma ReadNumber(text: string, rest: string)
    requires Ends(rest) && IsNumber(text)
    ensures ReadValue(text + rest) == Some((Num(text), rest))
  {
    var s := text + rest;
    assert s[..|text|] == text && s[|text|..] == rest && s[0] == text[0];
    ScalarIsRead(s);
    if text == "NaN" || text == "Infinity" || text == "-Infinity" {
      assert text <= s;
    } else {
      NumberAhead(text, rest);
      NumberIsRead(s);
    }
  }

  lemma NumberHead(text: string)
    requires IsNumber(text)
    ensures text != "" && (IsDigit(text[0]) || text[0] == '-' || text[0] == 'N' || text[0] == 'I')
  {
    hide NumberLength;
    if text != "" && NumberLength(text) == |text| {
      NumberAhead(text, "");
    }
  }

  lemma ReadLiteral(v: Json, rest: string)
    requires v == Null || v == Bool(true) || v == Bool(false)
    ensures ReadValue(LiteralText(v) + rest) == Some((v, rest))
  {
    var w := LiteralText(v);
    var s := w + rest;
    assert s[0] == w[0] && s[1] == w[1];
    assert w <= s && s[|w|..] == rest;
    ScalarIsRead(s);
  }

  /** A printed value begins with none of white space, a closing bracket or a comma. */
  lemma PrintedHead(v: Syntax, rest: string)
    requires Ok(v)
    ensures PrintTo(v, rest) != ""
    ensures var c := PrintTo(v, rest)[0]; !IsWs(c) && c != ']' && c != '}' && c != ',' && c != ':'
  {
    match v
    case Number(text) =>
      NumberHead(text);
      assert (text + rest)[0] == text[0];
    case Literal(value) =>
      assert (LiteralText(value) + rest)[0] == LiteralText(value)[0];
    case _ =>
  }

  lemma ReadText(ps: seq<Piece>, rest: string)
    requires PiecesOk(ps)
    ensures ReadValue(QuotedTo(ps, rest)) == Some((PiecesText(ps), rest))
  {
    Head('"', PiecesTo(ps, ['"'] + rest));
    ReadPieces(ps, rest);
  }

  lemma ReadEmpty(gap: string, rest: string)
    requires AllWs(gap)
    ensures ReadValue(['['] + (gap + ([']'] + rest))) == Some((Arr([]), rest))
    ensures ReadValue(['{'] + (gap + (['}'] + rest))) == Some((Obj([]), rest))
  {
    Head('[', gap + ([']'] + rest));
    Head(']', rest);
    SkipWsTo(gap, [']'] + rest);
    Head('{', gap + (['}'] + rest));
    Head('}', rest);
    SkipWsTo(gap, ['}'] + rest);
  }

  lemma OpenList(t: string, vs: seq<Json>, rest: string)
    requires SkipWs(t) != "" && SkipWs(t)[0] != ']' && ReadElems(SkipWs(t)) == Some((vs, rest))
    ensures ReadValue(['['] + t) == Some((Arr(vs), rest))
  {
    Head('[', t);
  }

  lemma OpenDict(t: string, ms: seq<Member>, rest: string)
    requires SkipWs(t) != "" && SkipWs(t)[0] != '}' && ReadEntries(SkipWs(t)) == Some((ms, rest))
    ensures ReadValue(['{'] + t) == Some((Obj(ms), rest))
  {
    Head('{', t);
  }

  lemma {:induction false} ReadPrinted(v: Syntax, rest: string)
    requires Ok(v) && Ends(rest)
    ensures ReadValue(PrintTo(v, rest)) == Some((Value(v), rest))
    decreases v, 2
  {
    match v
    case Literal(value) => ReadLiteral(value, rest);
    case Number(text) => ReadNumber(text, rest);
    case Text(pieces) => ReadText(pieces, rest);
    case List(gap, elems) =>
      if elems == [] {
        ReadEmpty(gap, rest);
      } else {
        ElemsHead(elems, rest);
        ReadPrintedElems(elems, rest);
        OpenList(ElemsTo(elems, rest), ElemValues(elems), rest);
      }
    case Dict(gap, entries) =>
      ReadObject(gap, entries, rest);
  }

  /** An object needs nothing of what stands behind it. */
  lemma ReadObject(gap: string, entries: seq<Entry>, rest: string)
    requires AllWs(gap) && EntriesOk(entries)
    ensures ReadValue(PrintTo(Dict(gap, entries), rest)) == Some((Obj(EntryValues(entries)), rest))
    decreases entries, 1
  {
    if entries == [] {
      ReadEmpty(gap, rest);
    } else {
      EntriesHead(entries, rest);
      ReadPrintedEntries(entries, rest);
      OpenDict(EntriesTo(entries, rest), EntryValues(entries), rest);
    }
  }

  lemma ElemsHead(es: seq<Elem>, rest: string)
    requires es != [] && ElemsOk(es)
    ensures var t := SkipWs(ElemsTo(es, rest)); t != "" && t[0] != ']'
  {
    var tail := es[0].trail + (if |es| == 1 then [']'] + rest else [','] + ElemsTo(es[1..], rest));
    PrintedHead(es[0].value, tail);
    SkipWsTo(es[0].lead, PrintTo(es[0].value, tail));
  }

  lemma EntriesHead(es: seq<Entry>, rest: string)
    requires es != [] && EntriesOk(es)
    ensures var t := SkipWs(EntriesTo(es, rest)); t != "" && t[0] == '"'
  {
    var e := es[0];
    var tail := e.trail + (if |es| == 1 then ['}'] + rest else [','] + EntriesTo(es[1..], rest));
    SkipWsTo(e.lead, QuotedTo(e.key, e.afterKey + ([':'] + (e.beforeValue + PrintTo(e.value, tail)))));
  }

  lemma EndsAfter(ws: string, c: char, rest: string)
    requires AllWs(ws) && (c == ']' || c == '}' || c == ',')
    ensures Ends(ws + ([c] + rest)) && SkipWs(ws + ([c] + rest)) == [c] + rest
  {
    Head(c, rest);
    SkipWsTo(ws, [c] + rest);
  }

  /** One element, with a bracket or a comma `c` behind it. */
  lemma ReadOneElem(e: Elem, c: char, after: string)
    requires AllWs(e.lead) && Ok(e.value) && AllWs(e.trail) && (c == ']' || c == ',')
    requires ReadValue(PrintTo(e.value, e.trail + ([c] + after))) == Some((Value(e.value), e.trail + ([c] + after)))
    ensures ReadElems(SkipWs(e.lead + PrintTo(e.value, e.trail + ([c] + after))))
            == if c == ']' then Some(([Value(e.value)], after))
               else match ReadElems(SkipWs(after))
                 case None => None
                 case Some((vs, rest)) => Some(([Value(e.value)] + vs, rest))
  {
    var tail := e.trail + ([c] + after);
    PrintedHead(e.value, tail);
    SkipWsTo(e.lead, PrintTo(e.value, tail));
    EndsAfter(e.trail, c, after);
    Head(c, after);
  }

  lemma {:induction false} ReadPrintedElems(es: seq<Elem>, rest: string)
    requires es != [] && ElemsOk(es)
    ensures ReadElems(SkipWs(ElemsTo(es, rest))) == Some((ElemValues(es), rest))
    decreases es, 0
  {
    var e := es[0];
    if |es| == 1 {
      EndsAfter(e.trail, ']', rest);
      ReadPrinted(e.value, e.trail + ([']'] + rest));
      ReadOneElem(e, ']', rest);
      assert [Value(e.value)] + ElemValues([]) == [Value(e.value)] && es[1..] == [];
    } else {
      var after := ElemsTo(es[1..], rest);
      EndsAfter(e.trail, ',', after);
      ReadPrinted(e.value, e.trail + ([','] + after));
      ReadOneElem(e, ',', after);
      ReadPrintedElems(es[1..], rest);
    }
  }

  /** One entry, with a bracket or a comma `c` behind it. */
  lemma ReadOneEntry(e: Entry, c: char, after: string)
    requires EntriesOk([e]) && (c == '}' || c == ',')
    requires ReadValue(PrintTo(e.value, e.trail + ([c] + after))) == Some((Value(e.value), e.trail + ([c] + after)))
    ensures var tail := e.trail + ([c] + after);
            var member := Member(PiecesText(e.key), Value(e.value));
            var text := QuotedTo(e.key, e.afterKey + ([':'] + (e.beforeValue + PrintTo(e.value, tail))));
            ReadEntries(SkipWs(e.lead + text))
            == if c == '}' then Some(([member], after))
               else match ReadEntries(SkipWs(after))
                 case None => None
                 case Some((ms, rest)) => Some(([member] + ms, rest))
  {
    assert [e][1..] == [] && EntriesOk([e][1..]);
    var tail := e.trail + ([c] + after);
    ReadEntryHead(e, tail);
    EndsAfter(e.trail, c, after);
    Head(c, after);
  }

  lemma {:induction false} ReadPrintedEntries(es: seq<Entry>, rest: string)
    requires es != [] && EntriesOk(es)
    ensures ReadEntries(SkipWs(EntriesTo(es, rest))) == Some((EntryValues(es), rest))
    decreases es, 0
  {
    var e := es[0];
    assert EntriesOk([e]) by { assert [e][1..] == []; }
    if |es| == 1 {
      EndsAfter(e.trail, '}', rest);
      ReadPrinted(e.value, e.trail + (['}'] + rest));
      ReadOneEntry(e, '}', rest);
      var member := Member(PiecesText(e.key), Value(e.value));
      assert [member] + EntryValues([]) == [member] && es[1..] == [];
    } else {
      var after := EntriesTo(es[1..], rest);
      EndsAfter(e.trail, ',', after);
      ReadPrinted(e.value, e.trail + ([','] + after));
      ReadOneEntry(e, ',', after);
      ReadPrintedEntries(es[1..], rest);
    }
  }

  /** Key, colon and white space lead the reader to the value. */
  lemma ReadEntryHead(e: Entry, tail: string)
    requires EntriesOk([e])
    ensures var s := SkipWs(e.lead + QuotedTo(e.key, e.afterKey + ([':'] + (e.beforeValue + PrintTo(e.value, tail)))));
            && s != "" && s[0] == '"'
            && ReadString(s[1..]).Some?
            && var (key, a) := ReadString(s[1..]).value;
            && key == PiecesPoints(e.key)
            && SkipWs(a) == [':'] + (e.beforeValue + PrintTo(e.value, tail))
            && SkipWs(SkipWs(a)[1..]) == PrintTo(e.value, tail)
  {
    assert EntriesOk([e][1..]);
    var value := PrintTo(e.value, tail);
    var colon := [':'] + (e.beforeValue + value);
    var s := QuotedTo(e.key, e.afterKey + colon);
    SkipWsTo(e.lead, s);
    Head('"', PiecesTo(e.key, ['"'] + (e.afterKey + colon)));
    ReadPieces(e.key, e.afterKey + colon);
    Head(':', e.beforeValue + value);
    SkipWsTo(e.afterKey, colon);
    PrintedHead(e.value, tail);
    SkipWsTo(e.beforeValue, value);
  }

  /** Whatever the layout and the escapes, reading a printed value gives the value. */
  lemma LoadsPrinted(v: Syntax)
    requires Ok(v)
    ensures Loads(Print(v)) == Some(Value(v))
  {
    ReadPrinted(v, "");
    PrintedHead(v, "");
  }

  // -------------------------------------------------- printing, then the rest

  lemma PieceThen(p: Piece, a: string, b: string)
    ensures PieceTo(p, a) + b == PieceTo(p, a + b)
  {
    match p
    case Plain(c) => Shift(c, a, b);
    case Short(e) =>
      Shift(e, a, b);
      Shift('\\', [e] + a, b);
    case Hex(d) =>
      Regroup(d, a, b);
      Shift('u', d + a, b);
      Shift('\\', ['u'] + (d + a), b);
  }

  lemma {:induction false} PiecesThen(ps: seq<Piece>, a: string, b: string)
    ensures PiecesTo(ps, a) + b == PiecesTo(ps, a + b)
  {
    if ps != [] {
      PiecesThen(ps[1..], a, b);
      PieceThen(ps[0], PiecesTo(ps[1..], a), b);
    }
  }

  lemma QuotedThen(ps: seq<Piece>, a: string, b: string)
    ensures QuotedTo(ps, a) + b == QuotedTo(ps, a + b)
  {
    PiecesThen(ps, ['"'] + a, b);
    assert (['"'] + a) + b == ['"'] + (a + b);
    assert (['"'] + PiecesTo(ps, ['"'] + a)) + b == ['"'] + (PiecesTo(ps, ['"'] + a) + b);
  }

  lemma Shift(c: char, a: string, b: string)
    ensures ([c] + a) + b == [c] + (a + b)
  {
  }

  lemma {:induction false} PrintThen(v: Syntax, a: string, b: string)
    ensures PrintTo(v, a) + b == PrintTo(v, a + b)
    decreases v, 1
  {
    match v
    case Literal(value) => Regroup(LiteralText(value), a, b);
    case Number(text) => Regroup(text, a, b);
    case Text(pieces) => QuotedThen(pieces, a, b);
    case List(gap, elems) =>
      if elems == [] {
        Shift('[', gap + ([']'] + a), b); Regroup(gap, [']'] + a, b); Shift(']', a, b);
      } else {
        ElemsThen(elems, a, b);
        Shift('[', ElemsTo(elems, a), b);
      }
    case Dict(gap, entries) =>
      if entries == [] {
        Shift('{', gap + (['}'] + a), b); Regroup(gap, ['}'] + a, b); Shift('}', a, b);
      } else {
        EntriesThen(entries, a, b);
        Shift('{', EntriesTo(entries, a), b);
      }
  }

  lemma {:induction false} ElemsThen(es: seq<Elem>, a: string, b: string)
    requires es != []
    ensures ElemsTo(es, a) + b == ElemsTo(es, a + b)
    decreases es, 0
  {
    var e := es[0];
    var more := if |es| == 1 then [']'] + a else [','] + ElemsTo(es[1..], a);
    if |es| == 1 {
      Shift(']', a, b);
    } else {
      ElemsThen(es[1..], a, b);
      Shift(',', ElemsTo(es[1..], a), b);
    }
    Regroup(e.trail, more, b);
    PrintThen(e.value, e.trail + more, b);
    Regroup(e.lead, PrintTo(e.value, e.trail + more), b);
  }

  lemma {:induction false} EntriesThen(es: seq<Entry>, a: string, b: string)
    requires es != []
    ensures EntriesTo(es, a) + b == EntriesTo(es, a + b)
    decreases es, 0
  {
    var e := es[0];
    var more := if |es| == 1 then ['}'] + a else [','] + EntriesTo(es[1..], a);
    if |es| == 1 {
      Shift('}', a, b);
    } else {
      EntriesThen(es[1..], a, b);
      Shift(',', EntriesTo(es[1..], a), b);
    }
    Regroup(e.trail, more, b);
    PrintThen(e.value, e.trail + more, b);
    var value := PrintTo(e.value, e.trail + more);
    Regroup(e.beforeValue, value, b);
    Shift(':', e.beforeValue + value, b);
    Regroup(e.afterKey, [':'] + (e.beforeValue + value), b);
    QuotedThen(e.key, e.afterKey + ([':'] + (e.beforeValue + value)), b);
    Regroup(e.lead, QuotedTo(e.key, e.afterKey + ([':'] + (e.beforeValue + value))), b);
  }

  /** Printing with a continuation is printing followed by it. */
  lemma PrintIsPrefix(v: Syntax, rest: string)
    ensures PrintTo(v, rest) == Print(v) + rest
  {
    PrintThen(v, "", rest);
    assert "" + rest == rest;
  }
}
