/**
  Finding a JSON object in a model's reply (content_tool/gemini/client.py).

  Code fences are peeled off, the rest is read as JSON, and failing that the first
  brace-balanced block is. `Scan` says which block that is; the theorems below say
  that it is the embedded object, whatever its strings and its layout contain.
*/
module GeminiExtract {
  import opened Wrappers
  import opened PyStr
  import opened Json
  import opened Seqs

  datatype Reply = Parsed(json: Json) | NotJson

  // ------------------------------------------------------------- the decision

  /** Where `c` first stands in `s`; `|s|` when it does not. */
  function IndexOf(s: string, c: char): (i: nat)
    ensures i <= |s|
    ensures i < |s| ==> s[i] == c
  {
    if s == "" || s[0] == c then 0 else 1 + IndexOf(s[1..], c)
  }

  lemma {:induction false} IndexIsFirst(s: string, c: char)
    ensures c !in s[..IndexOf(s, c)]
  {
    if s != "" && s[0] != c {
      IndexIsFirst(s[1..], c);
      var i := IndexOf(s[1..], c);
      assert s[..1 + i] == [s[0]] + s[1..][..i];
    }
  }

  const FENCE := "```"

  /** What follows the fence: the next line, or without one the text behind the fence. */
  function AfterFenceLine(s: string): string
    requires FENCE <= s
  {
    if '\n' in s then var n := IndexOf(s, '\n'); if n < |s| then s[n + 1..] else "" else s[3..]
  }

  function WithoutClosingFence(s: string): string {
    if EndsWith(s, FENCE) then s[..|s| - 3] else s
  }

  predicate IsLetter(c: char, low: char, up: char) {
    c == low || c == up
  }

  /** A bare `json` line, in either case. */
  predicate HasJsonTag(s: string) {
    |s| >= 5 && IsLetter(s[0], 'j', 'J') && IsLetter(s[1], 's', 'S') && IsLetter(s[2], 'o', 'O')
    && IsLetter(s[3], 'n', 'N')
    && s[4] == '\n'
  }

  function WithoutTag(s: string): string {
    if HasJsonTag(s) then LStrip(s[5..]) else s
  }

  /** What is made of the text behind a fence line. */
  function Peel(behind: string): string {
    WithoutTag(Strip(WithoutClosingFence(behind)))
  }

  function Candidate(text: string): string {
    var s := Strip(text);
    if FENCE <= s then Peel(AfterFenceLine(s)) else s
  }

  /** What is left of `s` behind the brace that brings `depth` to zero. */
  function Scan(s: string, depth: int, inStr: bool, esc: bool): (rest: Option<string>)
    ensures rest.Some? ==> |rest.value| < |s|
    decreases |s|
  {
    if s == "" then None
    else if inStr then
      if esc then Scan(s[1..], depth, true, false)
      else if s[0] == '\\' then Scan(s[1..], depth, true, true)
      else Scan(s[1..], depth, s[0] != '"', false)
    else if s[0] == '"' then Scan(s[1..], depth, true, esc)
    else if s[0] == '{' then Scan(s[1..], depth + 1, false, esc)
    else if s[0] == '}' then
      if depth - 1 == 0 then Some(s[1..]) else Scan(s[1..], depth - 1, false, esc)
    else Scan(s[1..], depth, false, esc)
  }

  /** The state of the scan behind the character `c`, unless it stops there. */
  function ScanNext(c: char, depth: int, inStr: bool, esc: bool): (int, bool, bool) {
    if inStr then (if esc then (depth, true, false) else (depth, c == '\\' || c != '"', c == '\\'))
    else if c == '"' then (depth, true, esc)
    else if c == '{' then (depth + 1, false, esc)
    else if c == '}' then (depth - 1, false, esc)
    else (depth, false, esc)
  }

  /** How many characters the scan leaves over, from position `i` on; -1 for an unbalanced text. */
  function Outcome(c: string, i: nat, depth: int, inStr: bool, esc: bool): (left: int)
    requires i <= |c|
    ensures left <= |c| - i
  {
    var rest := Scan(c[i..], depth, inStr, esc);
    if rest.Some? then |rest.value| else -1
  }

  function BlockOf(c: string, start: nat, left: int): Option<string>
    requires start <= |c| && left <= |c| - start
  {
    if left < 0 then None else Some(c[start..|c| - left])
  }

  /** The first brace-balanced block of `c`. */
  function Block(c: string): Option<string> {
    var start := IndexOf(c, '{');
    BlockOf(c, start, Outcome(c, start, 0, false, false))
  }

  /** The candidate as a whole, else its first block, else nothing. */
  function ReplyOf(c: string): Reply {
    if Loads(c).Some? then Parsed(Loads(c).value)
    else if Block(c).Some? && Loads(Block(c).value).Some? then Parsed(Loads(Block(c).value).value)
    else NotJson
  }

  function Extract(text: string): Reply {
    if text == "" then Parsed(Obj([])) else ReplyOf(Candidate(text))
  }

  lemma ScanAt(c: string, i: nat, depth: int, inStr: bool, esc: bool)
    requires i < |c|
    ensures Outcome(c, i, depth, inStr, esc)
            == if inStr then
                 if esc then Outcome(c, i + 1, depth, true, false)
                 else if c[i] == '\\' then Outcome(c, i + 1, depth, true, true)
                 else Outcome(c, i + 1, depth, c[i] != '"', false)
               else if c[i] == '"' then Outcome(c, i + 1, depth, true, esc)
               else if c[i] == '{' then Outcome(c, i + 1, depth + 1, false, esc)
               else if c[i] == '}' then
                 (if depth - 1 == 0 then |c| - (i + 1) else Outcome(c, i + 1, depth - 1, false, esc))
               else Outcome(c, i + 1, depth, false, esc)
  {
    assert c[i..][0] == c[i] && c[i..][1..] == c[i + 1..];
  }

  /** The scanning loop: `Scan` is what its three variables compute. */
  method FirstBlock(candidate: string) returns (block: Option<string>)
    ensures block == Block(candidate)
  {
    var start := IndexOf(candidate, '{');
    var depth, inStr, esc := 0, false, false;
    for i := start to |candidate|
      invariant Outcome(candidate, start, 0, false, false) == Outcome(candidate, i, depth, inStr, esc)
    {
      ScanAt(candidate, i, depth, inStr, esc);
      var ch := candidate[i];
      if inStr {
        if esc {
          esc := false;
        } else if ch == '\\' {
          esc := true;
        } else if ch == '"' {
          inStr := false;
        }
        continue;
      }
      if ch == '"' {
        inStr := true;
      } else if ch == '{' {
        depth := depth + 1;
      } else if ch == '}' {
        depth := depth - 1;
        if depth == 0 {
          return Some(candidate[start..i + 1]);
        }
      }
    }
    assert Outcome(candidate, |candidate|, depth, inStr, esc) == -1;
    return None;
  }

  /** `parse_gemini_json`, step by step. */
  method ParseGeminiJson(text: string) returns (r: Reply)
    ensures r == Extract(text)
  {
    hide Loads, IndexOf, LStrip, RStrip, Block, AfterFenceLine;
    if text == "" {
      return Parsed(Obj([]));
    }
    var candidate := Strip(text);
    if FENCE <= candidate {
      candidate := AfterFenceLine(candidate);
      if EndsWith(candidate, FENCE) {
        candidate := candidate[..|candidate| - 3];
      }
      candidate := Strip(candidate);
      if HasJsonTag(candidate) {
        candidate := LStrip(candidate[5..]);
      }
    }
    var whole := Loads(candidate);
    if whole.Some? {
      return Parsed(whole.value);
    }
    var block := FirstBlock(candidate);
    if block.Some? {
      var inner := Loads(block.value);
      if inner.Some? {
        return Parsed(inner.value);
      }
    }
    return NotJson;
  }

  // ------------------------------------------ the scanner stops at the object

  /** Text the scanner walks over without a change of state. */
  predicate Quiet(t: string) {
    forall i :: 0 <= i < |t| ==> t[i] != '"' && t[i] != '{' && t[i] != '}'
  }

  lemma {:induction false} ScanQuiet(t: string, rest: string, depth: int)
    requires Quiet(t)
    ensures Scan(t + rest, depth, false, false) == Scan(rest, depth, false, false)
  {
    if t == "" {
      assert t + rest == rest;
    } else {
      assert (t + rest)[1..] == t[1..] + rest;
      ScanQuiet(t[1..], rest, depth);
    }
  }

  /** One step over the character `c`. */
  lemma ScanStep(c: char, rest: string, depth: int)
    ensures Scan([c] + rest, depth, false, false)
            == if c == '"' then Scan(rest, depth, true, false)
               else if c == '{' then Scan(rest, depth + 1, false, false)
               else if c == '}' then (if depth == 1 then Some(rest) else Scan(rest, depth - 1, false, false))
               else Scan(rest, depth, false, false)
  {
    Head(c, rest);
  }

  /** Inside a string an escape hides the character behind it. */
  lemma ScanInside(c: char, e: char, rest: string, depth: int)
    ensures c != '"' && c != '\\' ==> Scan([c] + rest, depth, true, false) == Scan(rest, depth, true, false)
    ensures Scan(['"'] + rest, depth, true, false) == Scan(rest, depth, false, false)
    ensures Scan(['\\'] + ([e] + rest), depth, true, false) == Scan(rest, depth, true, false)
  {
    Head(c, rest);
    Head('"', rest);
    Head(e, rest);
    Head('\\', [e] + rest);
  }

  lemma {:induction false} ScanInert(t: string, rest: string, depth: int)
    requires forall i :: 0 <= i < |t| ==> t[i] != '"' && t[i] != '\\'
    ensures Scan(t + rest, depth, true, false) == Scan(rest, depth, true, false)
  {
    if t == "" {
      assert t + rest == rest;
    } else {
      assert (t + rest)[1..] == t[1..] + rest;
      ScanInert(t[1..], rest, depth);
    }
  }

  lemma ScanHex4(d: string, rest: string, depth: int)
    requires |d| == 4 && Hex4(d).Some?
    ensures Scan(d + rest, depth, true, false) == Scan(rest, depth, true, false)
  {
    ScanInert(d, rest, depth);
  }

  lemma ScanPiece(p: Piece, rest: string, depth: int)
    requires PieceOk(p)
    ensures Scan(PieceTo(p, rest), depth, true, false) == Scan(rest, depth, true, false)
  {
    match p
    case Plain(c) =>
      ScanInside(c, 'u', rest, depth);
    case Short(e) =>
      ScanInside('u', e, rest, depth);
    case Hex(d) =>
      ScanInside('u', 'u', d + rest, depth);
      ScanHex4(d, rest, depth);
  }

  lemma {:induction false} ScanPieces(ps: seq<Piece>, rest: string, depth: int)
    requires PiecesOk(ps)
    ensures Scan(PiecesTo(ps, rest), depth, true, false) == Scan(rest, depth, true, false)
  {
    if ps != [] {
      ScanPiece(ps[0], PiecesTo(ps[1..], rest), depth);
      ScanPieces(ps[1..], rest, depth);
    }
  }

  lemma ScanQuoted(ps: seq<Piece>, rest: string, depth: int)
    requires PiecesOk(ps)
    ensures Scan(QuotedTo(ps, rest), depth, false, false) == Scan(rest, depth, false, false)
  {
    ScanStep('"', PiecesTo(ps, ['"'] + rest), depth);
    ScanPieces(ps, ['"'] + rest, depth);
    ScanInside('u', 'u', rest, depth);
  }

  predicate NumberChars(t: string) {
    forall i :: 0 <= i < |t| ==>
      IsDigit(t[i]) || t[i] == '-' || t[i] == '+' || t[i] == '.' || t[i] == 'e' || t[i] == 'E'
  }

  lemma {:induction false} DigitRunChars(s: string)
    ensures NumberChars(s[..DigitRun(s)])
  {
    if s != "" && IsDigit(s[0]) {
      DigitRunChars(s[1..]);
      assert s[..DigitRun(s)] == [s[0]] + s[1..][..DigitRun(s[1..])];
    }
  }

  lemma SplitChars(s: string, a: nat, b: nat)
    requires a + b <= |s| && NumberChars(s[..a]) && NumberChars(s[a..][..b])
    ensures NumberChars(s[..a + b])
  {
    assert s[..a + b] == s[..a] + s[a..][..b];
  }

  lemma FractionChars(s: string)
    ensures NumberChars(s[..FractionLength(s)])
  {
    hide DigitRun;
    if FractionLength(s) > 0 {
      DigitRunChars(s[1..]);
      SplitChars(s, 1, DigitRun(s[1..]));
    }
  }

  lemma ExponentChars(s: string)
    ensures NumberChars(s[..ExponentLength(s)])
  {
    hide DigitRun;
    if ExponentLength(s) > 0 {
      var sign := SignLength(s[1..]);
      DigitRunChars(s[1..][sign..]);
      assert s[1..][sign..] == s[1 + sign..];
      assert NumberChars(s[..1 + sign]);
      SplitChars(s, 1 + sign, DigitRun(s[1 + sign..]));
    }
  }

  lemma TailChars(s: string)
    ensures NumberChars(s[..TailLength(s)])
  {
    hide FractionLength, ExponentLength;
    FractionChars(s);
    ExponentChars(s[FractionLength(s)..]);
    SplitChars(s, FractionLength(s), ExponentLength(s[FractionLength(s)..]));
  }

  lemma UnsignedChars(s: string)
    ensures NumberChars(s[..UnsignedLength(s)])
  {
    DigitRunChars(s);
    TailChars(s[IntegerLength(s)..]);
    SplitChars(s, IntegerLength(s), TailLength(s[IntegerLength(s)..]));
  }

  lemma SignChars(s: string, n: nat)
    requires s != "" && s[0] == '-' && n <= |s[1..]| && NumberChars(s[1..][..n])
    ensures NumberChars(s[..1 + n])
  {
    assert s[..1 + n] == ['-'] + s[1..][..n];
  }

  lemma NumberHasNumberChars(s: string)
    ensures NumberChars(s[..NumberLength(s)])
  {
    if s != "" && s[0] == '-' {
      UnsignedChars(s[1..]);
      SignChars(s, UnsignedLength(s[1..]));
    } else {
      UnsignedChars(s);
    }
  }

  lemma NumberIsQuiet(text: string)
    requires IsNumber(text)
    ensures Quiet(text)
  {
    NumberHasNumberChars(text);
    if text != "NaN" && text != "Infinity" && text != "-Infinity" {
      assert text[..|text|] == text;
    }
  }

  lemma LiteralIsQuiet(v: Json)
    ensures Quiet(LiteralText(v))
  {
  }

  /** A printed object brings the depth back to where it was. */
  lemma ScanDict(gap: string, entries: seq<Entry>, rest: string, depth: int)
    requires depth >= 0 && AllWs(gap) && EntriesOk(entries)
    ensures Scan(PrintTo(Dict(gap, entries), rest), depth, false, false)
            == if depth == 0 then Some(rest) else Scan(rest, depth, false, false)
    decreases entries, 1
  {
    ScanStep('}', rest, depth + 1);
    if entries == [] {
      assert PrintTo(Dict(gap, entries), rest) == ['{'] + (gap + (['}'] + rest));
      ScanBrackets('{', gap, '}', rest, depth);
    } else {
      assert PrintTo(Dict(gap, entries), rest) == ['{'] + EntriesTo(entries, rest);
      ScanStep('{', EntriesTo(entries, rest), depth);
      ScanEntries(entries, rest, depth + 1);
    }
  }

  lemma ScanBrackets(open: char, gap: string, close: char, rest: string, depth: int)
    requires AllWs(gap) && (open == '{' || open == '[') && (close == '}' || close == ']')
    ensures Scan([open] + (gap + ([close] + rest)), depth, false, false)
            == Scan([close] + rest, if open == '{' then depth + 1 else depth, false, false)
  {
    ScanStep(open, gap + ([close] + rest), depth);
    ScanQuiet(gap, [close] + rest, if open == '{' then depth + 1 else depth);
  }

  lemma {:induction false} ScanPrinted(v: Syntax, rest: string, depth: int)
    requires Ok(v) && depth > 0
    ensures Scan(PrintTo(v, rest), depth, false, false) == Scan(rest, depth, false, false)
    decreases v, 2
  {
    match v
    case Literal(value) =>
      LiteralIsQuiet(value);
      ScanQuiet(LiteralText(value), rest, depth);
    case Number(text) =>
      NumberIsQuiet(text);
      ScanQuiet(text, rest, depth);
    case Text(pieces) =>
      ScanQuoted(pieces, rest, depth);
    case List(gap, elems) =>
      ScanStep(']', rest, depth);
      if elems == [] {
        ScanBrackets('[', gap, ']', rest, depth);
      } else {
        ScanStep('[', ElemsTo(elems, rest), depth);
        ScanElems(elems, rest, depth);
      }
    case Dict(gap, entries) =>
      ScanDict(gap, entries, rest, depth);
  }

  lemma {:induction false} ScanElems(es: seq<Elem>, rest: string, depth: int)
    requires es != [] && ElemsOk(es) && depth > 0
    ensures Scan(ElemsTo(es, rest), depth, false, false) == Scan(rest, depth, false, false)
    decreases es, 0
  {
    var e := es[0];
    var more := if |es| == 1 then [']'] + rest else [','] + ElemsTo(es[1..], rest);
    ScanQuiet(e.lead, PrintTo(e.value, e.trail + more), depth);
    ScanPrinted(e.value, e.trail + more, depth);
    ScanQuiet(e.trail, more, depth);
    if |es| == 1 {
      ScanStep(']', rest, depth);
    } else {
      ScanStep(',', ElemsTo(es[1..], rest), depth);
      ScanElems(es[1..], rest, depth);
    }
  }

  lemma {:induction false} ScanEntries(es: seq<Entry>, rest: string, depth: int)
    requires es != [] && EntriesOk(es) && depth > 0
    ensures Scan(EntriesTo(es, rest), depth, false, false) == Scan(['}'] + rest, depth, false, false)
    decreases es, 0
  {
    var e := es[0];
    var more := if |es| == 1 then ['}'] + rest else [','] + EntriesTo(es[1..], rest);
    var value := PrintTo(e.value, e.trail + more);
    ScanQuiet(e.lead, QuotedTo(e.key, e.afterKey + ([':'] + (e.beforeValue + value))), depth);
    ScanQuoted(e.key, e.afterKey + ([':'] + (e.beforeValue + value)), depth);
    ScanQuiet(e.afterKey, [':'] + (e.beforeValue + value), depth);
    ScanStep(':', e.beforeValue + value, depth);
    ScanQuiet(e.beforeValue, value, depth);
    ScanPrinted(e.value, e.trail + more, depth);
    ScanQuiet(e.trail, more, depth);
    if |es| > 1 {
      ScanStep(',', EntriesTo(es[1..], rest), depth);
      ScanEntries(es[1..], rest, depth);
    }
  }

  // ------------------------------------------ the embedded object is extracted

  predicate IsObject(v: Syntax) {
    v.Dict? && Ok(v)
  }

  lemma PrintedEnds(v: Syntax)
    requires IsObject(v)
    ensures Print(v) != "" && Print(v)[0] == '{' && Print(v)[|Print(v)| - 1] == '}'
    ensures !IsSpace('{') && !IsSpace('}')
  {
    if v.entries == [] {
      assert Print(v) == ['{'] + (v.gap + (['}'] + ""));
    } else {
      EntriesEnd(v.entries);
      assert Print(v) == ['{'] + EntriesTo(v.entries, "");
    }
  }

  lemma {:induction false} EntriesEnd(es: seq<Entry>)
    requires es != []
    ensures EntriesTo(es, "") != "" && EntriesTo(es, "")[|EntriesTo(es, "")| - 1] == '}'
  {
    if |es| == 1 {
      assert ['}'] + "" == ['}'];
      EntryEnd(es[0], ['}']);
    } else {
      var tail := EntriesTo(es[1..], "");
      EntriesEnd(es[1..]);
      LastOf([','], tail);
      EntryEnd(es[0], [','] + tail);
    }
  }

  lemma {:induction false} ElemsEnd(es: seq<Elem>)
    requires es != []
    ensures ElemsTo(es, "") != "" && ElemsTo(es, "")[|ElemsTo(es, "")| - 1] == ']'
  {
    hide PrintTo;
    if |es| == 1 {
      assert [']'] + "" == [']'];
      ElemEnd(es[0], [']']);
    } else {
      var tail := ElemsTo(es[1..], "");
      ElemsEnd(es[1..]);
      LastOf([','], tail);
      ElemEnd(es[0], [','] + tail);
    }
  }

  /** One element in front of `more`. */
  lemma ElemEnd(e: Elem, more: string)
    requires more != ""
    ensures var s := e.lead + PrintTo(e.value, e.trail + more); s != "" && s[|s| - 1] == more[|more| - 1]
  {
    hide PrintTo;
    ValueEnd(e.value, e.trail, more);
    LastOf(e.lead, PrintTo(e.value, e.trail + more));
  }

  /** One entry in front of `more`. */
  lemma EntryEnd(e: Entry, more: string)
    requires more != ""
    ensures var value := PrintTo(e.value, e.trail + more);
            var s := e.lead + QuotedTo(e.key, e.afterKey + ([':'] + (e.beforeValue + value)));
            s != "" && s[|s| - 1] == more[|more| - 1]
  {
    var y := PrintTo(e.value, e.trail + more);
    ValueEnd(e.value, e.trail, more);
    LastOf(e.beforeValue, y);
    LastOf([':'], e.beforeValue + y);
    LastOf(e.afterKey, [':'] + (e.beforeValue + y));
    var x := e.afterKey + ([':'] + (e.beforeValue + y));
    QuotedEnd(e.key, x);
    LastOf(e.lead, QuotedTo(e.key, x));
  }

  lemma ValueEnd(v: Syntax, trail: string, more: string)
    requires more != ""
    ensures var s := PrintTo(v, trail + more); s != "" && s[|s| - 1] == more[|more| - 1]
  {
    PrintIsPrefix(v, trail + more);
    LastOf(trail, more);
    LastOf(Print(v), trail + more);
  }

  lemma QuotedEnd(ps: seq<Piece>, x: string)
    requires x != ""
    ensures var s := QuotedTo(ps, x); s != "" && s[|s| - 1] == x[|x| - 1]
  {
    QuotedThen(ps, "", x);
    assert "" + x == x;
    LastOf(QuotedTo(ps, ""), x);
  }

  lemma IndexAfter(pre: string, c: char, s: string)
    requires c !in pre && s != "" && s[0] == c
    ensures IndexOf(pre + s, c) == |pre|
  {
    var i := IndexOf(pre + s, c);
    IndexIsFirst(pre + s, c);
    assert (pre + s)[..|pre|] == pre && (pre + s)[|pre|] == c;
    Beyond(pre + s, i, |pre|, c);
    if i < |pre + s| {
      Beyond(pre + s, |pre|, i, c);
    }
  }

  /** What is not among the first `n` stands at `n` or later. */
  lemma Beyond(s: string, n: nat, k: nat, c: char)
    requires n <= |s| && k < |s| && c !in s[..n] && s[k] == c
    ensures k >= n
  {
    assert forall i :: 0 <= i < n ==> s[..n][i] == s[i] != c;
  }

  /** Behind any prefix without a brace, the first block is the object, and it reads as the object's value. */
  lemma BlockIsTheObject(pre: string, v: Syntax, post: string)
    requires IsObject(v) && '{' !in pre
    ensures Block(pre + (Print(v) + post)) == Some(Print(v))
    ensures Loads(Print(v)) == Some(Value(v))
  {
    hide Loads, Print, Value, IndexOf, Scan;
    LoadsPrinted(v);
    PrintedEnds(v);
    var s := Print(v) + post;
    IndexAfter(pre, '{', s);
    ObjectOutcome(pre, v, post);
    Middle(pre, Print(v), post);
  }

  lemma ObjectOutcome(pre: string, v: Syntax, post: string)
    requires IsObject(v)
    ensures Outcome(pre + (Print(v) + post), |pre|, 0, false, false) == |post|
  {
    PrintIsPrefix(v, post);
    assert v == Dict(v.gap, v.entries);
    ScanDict(v.gap, v.entries, post, 0);
    assert (pre + (Print(v) + post))[|pre|..] == Print(v) + post;
  }

  lemma Middle(a: string, b: string, c: string)
    ensures (a + (b + c))[|a|..|a| + |b|] == b
  {
  }

  // -------------------------------------------------------- peeling the fence

  /** `c` is the printed object with something brace-free before it. */
  ghost predicate Holds(c: string, p: string) {
    exists pre, post :: '{' !in pre && c == pre + (p + post)
  }

  lemma Surround(pre: string, p: string, post: string)
    requires '{' !in pre
    ensures Holds(pre + (p + post), p)
  {
  }

  /** Cutting at a position inside the prefix keeps the object. */
  lemma CutPrefix(pre: string, k: nat, p: string, post: string)
    requires '{' !in pre && k <= |pre|
    ensures (pre + (p + post))[k..] == pre[k..] + (p + post) && '{' !in pre[k..]
  {
  }

  lemma StripHolds(c: string, p: string)
    requires Holds(c, p) && p != "" && !IsSpace(p[0]) && !IsSpace(p[|p| - 1])
    ensures Holds(Strip(c), p) && Holds(LStrip(c), p)
  {
    var pre, post :| '{' !in pre && c == pre + (p + post);
    StripAround(pre, p, post);
    LStripIsSuffix(pre);
    Surround(LStrip(pre), p, RStrip(post));
    LStripUpTo(pre, p + post);
    Surround(LStrip(pre), p, post);
  }

  lemma ClosingFenceHolds(c: string, p: string)
    requires Holds(c, p) && p != "" && p[|p| - 1] == '}'
    ensures Holds(WithoutClosingFence(c), p)
  {
    var pre, post :| '{' !in pre && c == pre + (p + post);
    if EndsWith(c, FENCE) {
      var n := |c|;
      assert c[n - 3..][0] == c[n - 3] && c[n - 3..][1] == c[n - 2] && c[n - 3..][2] == c[n - 1];
      assert c[|pre| + |p| - 1] == '}';
      assert |post| >= 3;
      assert c[..n - 3] == pre + (p + post[..|post| - 3]);
      Surround(pre, p, post[..|post| - 3]);
    }
  }

  lemma TagHolds(c: string, p: string)
    requires Holds(c, p) && p != "" && p[0] == '{' && !IsSpace(p[0]) && !IsSpace(p[|p| - 1])
    ensures Holds(WithoutTag(c), p)
  {
    var pre, post :| '{' !in pre && c == pre + (p + post);
    if HasJsonTag(c) {
      assert c[|pre|] == '{';
      assert |pre| >= 5;
      CutPrefix(pre, 5, p, post);
      Surround(pre[5..], p, post);
      StripHolds(c[5..], p);
    }
  }

  /** The line of an opening fence ends before the object, or the text is a single line. */
  predicate FenceEndsBefore(pre: string, p: string, post: string) {
    FENCE <= LStrip(pre) ==> '\n' in LStrip(pre) || '\n' !in LStrip(pre) + (p + RStrip(post))
  }

  lemma FenceLineHolds(a: string, p: string, b: string)
    requires '{' !in a && p != "" && p[0] == '{' && FENCE <= a + (p + b)
    requires '\n' in a || '\n' !in a + (p + b)
    ensures Holds(AfterFenceLine(a + (p + b)), p)
  {
    var s := a + (p + b);
    assert FENCE[0] == s[0] && FENCE[1] == s[1] && FENCE[2] == s[2];
    assert s[|a|] == '{';
    assert |a| >= 3;
    if '\n' in s {
      var k := IndexOf(a, '\n');
      IndexIsFirst(a, '\n');
      assert a[..|a|] == a;
      IndexAfter(a[..k], '\n', a[k..] + (p + b));
      assert a[..k] + (a[k..] + (p + b)) == s;
      CutPrefix(a, k + 1, p, b);
      Surround(a[k + 1..], p, b);
    } else {
      CutPrefix(a, 3, p, b);
      Surround(a[3..], p, b);
    }
  }

  lemma CandidateHolds(pre: string, v: Syntax, post: string)
    requires IsObject(v) && '{' !in pre && FenceEndsBefore(pre, Print(v), post)
    ensures Holds(Candidate(pre + (Print(v) + post)), Print(v))
  {
    var p := Print(v);
    PrintedEnds(v);
    StripAround(pre, p, post);
    LStripIsSuffix(pre);
    var a, b := LStrip(pre), RStrip(post);
    var s := a + (p + b);
    Surround(a, p, b);
    if FENCE <= s {
      assert FENCE[0] == s[0] && FENCE[1] == s[1] && FENCE[2] == s[2];
      assert s[|a|] == '{';
      assert a[..3] == s[..3];
      FenceLineHolds(a, p, b);
      ClosingFenceHolds(AfterFenceLine(s), p);
      StripHolds(WithoutClosingFence(AfterFenceLine(s)), p);
      TagHolds(Strip(WithoutClosingFence(AfterFenceLine(s))), p);
    }
  }

  /** Neither a literal nor a number can hold a brace. */
  lemma ScalarHoldsNoBrace(s: string, k: nat)
    requires k < |s| && s[k] == '{'
    ensures ReadScalar(s).Some? ==> '{' in ReadScalar(s).value.1
  {
    hide NumberLength;
    if ReadScalar(s).Some? {
      var n := |s| - |ReadScalar(s).value.1|;
      ScalarChars(s);
      assert '{' !in s[..n];
      Beyond(s, n, k, '{');
      assert s[n..][k - n] == '{';
    }
  }

  /** The first n characters of `s` hold neither a brace nor a backslash. */
  predicate Bare(s: string, n: nat) {
    n <= |s| && '{' !in s[..n] && '\\' !in s[..n]
  }

  lemma WordsAreBare(s: string)
    ensures "null" <= s || "true" <= s ==> Bare(s, 4)
    ensures "false" <= s ==> Bare(s, 5)
    ensures "NaN" <= s ==> Bare(s, 3)
    ensures "Infinity" <= s ==> Bare(s, 8)
    ensures "-Infinity" <= s ==> Bare(s, 9)
  {
    assert "null" <= s ==> s[..4] == "null";
    assert "true" <= s ==> s[..4] == "true";
    assert "false" <= s ==> s[..5] == "false";
    assert "NaN" <= s ==> s[..3] == "NaN";
    assert "Infinity" <= s ==> s[..8] == "Infinity";
    assert "-Infinity" <= s ==> s[..9] == "-Infinity";
  }

  /** What is read as a literal or a number holds no brace. */
  lemma ScalarChars(s: string)
    requires ReadScalar(s).Some?
    ensures var rest := ReadScalar(s).value.1;
            |rest| <= |s| && rest == s[|s| - |rest|..] && Bare(s, |s| - |rest|)
  {
    hide NumberLength, Bare;
    NumberHasNumberChars(s);
    WordsAreBare(s);
    assert Bare(s, NumberLength(s)) by { hide *; BareNumber(s, NumberLength(s)); }
  }

  lemma BareNumber(s: string, n: nat)
    requires n <= |s| && NumberChars(s[..n])
    ensures Bare(s, n)
  {
  }

  lemma {:induction false} SkipWsIsSuffix(s: string)
    ensures SkipWs(s) == s[|s| - |SkipWs(s)|..] && AllWs(s[..|s| - |SkipWs(s)|])
    ensures SkipWs(s) != "" ==> !IsWs(SkipWs(s)[0])
  {
    if s != "" && IsWs(s[0]) {
      SkipWsIsSuffix(s[1..]);
      var n := |s[1..]| - |SkipWs(s[1..])|;
      assert s[..n + 1] == [s[0]] + s[1..][..n];
    }
  }

  lemma SkipWsKeeps(s: string, c: char)
    requires c in s && !IsWs(c)
    ensures c in SkipWs(s)
  {
    SkipWsIsSuffix(s);
    var n := |s| - |SkipWs(s)|;
    var k :| 0 <= k < |s| && s[k] == c;
    assert c !in s[..n];
    Beyond(s, n, k, c);
    assert SkipWs(s)[k - n] == c;
  }

  /**
    A candidate that holds the object and is JSON as a whole is an array, a string,
    or the object itself.
  */
  lemma WholeCandidate(c: string, v: Syntax)
    requires IsObject(v) && Holds(c, Print(v)) && Loads(c).Some?
    ensures Loads(c) == Some(Value(v)) || SkipWs(c)[0] == '[' || SkipWs(c)[0] == '"'
  {
    var pre, post :| '{' !in pre && c == pre + (Print(v) + post);
    PrintedEnds(v);
    assert c[|pre|] == '{';
    SkipWsKeeps(c, '{');
    var s := SkipWs(c);
    if s[0] == '{' {
      BraceFirst(pre, Print(v), post);
      PrintIsPrefix(v, post);
      ReadObject(v.gap, v.entries, post);
      assert v == Dict(v.gap, v.entries);
    } else if s[0] != '[' && s[0] != '"' {
      var k :| 0 <= k < |s| && s[k] == '{';
      ScalarHoldsNoBrace(s, k);
      ScalarIsRead(s);
      SkipWsKeeps(ReadValue(s).value.1, '{');
    }
  }

  /** When a brace is the first thing behind white space, it is the object's own. */
  lemma BraceFirst(pre: string, p: string, post: string)
    requires '{' !in pre && p != "" && p[0] == '{'
    requires var s := SkipWs(pre + (p + post)); s != "" && s[0] == '{'
    ensures SkipWs(pre + (p + post)) == p + post
  {
    var c := pre + (p + post);
    SkipWsIsSuffix(c);
    var n := |c| - |SkipWs(c)|;
    assert c[n] == '{' && c[|pre|] == '{' && c[..|pre|] == pre && '{' !in c[..n];
    Beyond(c, |pre|, n, '{');
    Beyond(c, n, |pre|, '{');
    assert c[|pre|..] == p + post;
  }

  /**
    For every object, in every layout: behind a prefix without a brace, and with any
    fence line ending before it, the object is what comes out, exactly unless the
    candidate as a whole reads as another value. Only text that turns the object into
    part of an array or of a string can do that.
  */
  lemma ExtractionInvertsPrinting(pre: string, v: Syntax, post: string)
    requires IsObject(v) && '{' !in pre && FenceEndsBefore(pre, Print(v), post)
    ensures var text := pre + (Print(v) + post);
            var c := Candidate(text);
            && (Extract(text) == Parsed(Value(v)) <==> Loads(c).None? || Loads(c) == Some(Value(v)))
            && (SkipWs(c) == "" || (SkipWs(c)[0] != '[' && SkipWs(c)[0] != '"') ==> Extract(text) == Parsed(Value(v)))
  {
    var text := pre + (Print(v) + post);
    var c := Candidate(text);
    PrintedEnds(v);
    assert text[|pre|] == '{';
    CandidateHolds(pre, v, post);
    var a, b :| '{' !in a && c == a + (Print(v) + b);
    BlockIsTheObject(a, v, b);
    if Loads(c).Some? {
      WholeCandidate(c, v);
    }
  }

  lemma OneElemText(e: Elem)
    requires e.lead == "" && e.trail == ""
    ensures ElemsTo([e], "") == PrintTo(e.value, [']'])
  {
    assert [']'] + "" == [']'] && "" + [']'] == [']'];
    assert "" + PrintTo(e.value, [']']) == PrintTo(e.value, [']']);
    assert |[e]| == 1;
  }

  /** An object that is the only element of an array comes out as the array. */
  lemma ArrayAroundTheObject(v: Syntax)
    requires IsObject(v)
    ensures Extract(['['] + (Print(v) + [']'])) == Parsed(Arr([Value(v)]))
  {
    hide Print, Loads, Value, LStrip, RStrip;
    var text := ['['] + (Print(v) + [']']);
    BracketedReads(v);
    StripKeeps(text);
    assert text[0] != FENCE[0];
  }

  lemma BracketedReads(v: Syntax)
    requires Ok(v)
    ensures Loads(['['] + (Print(v) + [']'])) == Some(Arr([Value(v)]))
  {
    hide Loads;
    var es := [Elem("", v, "")];
    PrintIsPrefix(v, [']']);
    OneElemText(es[0]);
    assert es[1..] == [] && ElemsOk(es[1..]) && ElemsOk(es);
    assert ElemValues(es) == [Value(v)] + ElemValues(es[1..]) && ElemValues(es[1..]) == [];
    LoadsPrinted(List("", es));
    assert Print(List("", es)) == ['['] + (Print(v) + [']']);
    assert Value(List("", es)) == Arr([Value(v)]);
  }
}
