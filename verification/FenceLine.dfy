/**
  Objects on the line of an opening code fence (content_tool/gemini/client.py).

  The whole fence line is dropped, and with it what stands on it. The theorems below
  say what comes out then. They count opening braces: reading a JSON text keeps their
  number, and no step of the extraction adds one, so an object that lost its own brace
  never comes back.
*/
module FenceLine {
  import opened Wrappers
  import opened PyStr
  import opened HexDigits
  import opened Json
  import opened Seqs
  import opened GeminiExtract

  // --------------------------------------------------------- the text behind it

  /** The fence line runs on into the object, and another line follows. */
  predicate OnTheFenceLine(pre: string, v: Syntax, post: string) {
    FENCE <= LStrip(pre) && '\n' !in LStrip(pre) && '\n' in Print(v) + RStrip(post)
  }

  lemma FenceLineExactly(pre: string, v: Syntax, post: string)
    ensures OnTheFenceLine(pre, v, post) <==> !FenceEndsBefore(pre, Print(v), post)
  {
    var a, s := LStrip(pre), Print(v) + RStrip(post);
    if '\n' in s {
      var k :| 0 <= k < |s| && s[k] == '\n';
      assert (a + s)[|a| + k] == '\n';
    }
  }

  /** What stands behind the fence line. */
  function Behind(v: Syntax, post: string): string {
    var s := Print(v) + RStrip(post);
    var n := IndexOf(s, '\n');
    if n < |s| then s[n + 1..] else ""
  }

  lemma {:induction false} IndexBehind(front: string, b: string, c: char)
    requires c !in front
    ensures IndexOf(front + b, c) == |front| + IndexOf(b, c)
  {
    if front == "" {
      assert front + b == b;
    } else {
      assert (front + b)[1..] == front[1..] + b;
      IndexBehind(front[1..], b, c);
    }
  }

  lemma LineBehind(front: string, b: string)
    requires '\n' !in front && '\n' in b && FENCE <= front + b
    ensures IndexOf(b, '\n') < |b|
    ensures AfterFenceLine(front + b) == b[IndexOf(b, '\n') + 1..]
  {
    hide IndexOf;
    var k := IndexOf(b, '\n');
    IndexIsFirst(b, '\n');
    assert b[..|b|] == b;
    IndexBehind(front, b, '\n');
    assert (front + b)[|front| + k] == b[k];
    assert (front + b)[|front| + k + 1..] == b[k + 1..];
  }

  /** The reply is that of the text behind the line, wherever on the object the line ends. */
  lemma ReplyIsFromBehind(pre: string, v: Syntax, post: string)
    requires IsObject(v) && OnTheFenceLine(pre, v, post)
    ensures Candidate(pre + (Print(v) + post)) == Peel(Behind(v, post))
    ensures Extract(pre + (Print(v) + post)) == ReplyOf(Peel(Behind(v, post)))
  {
    hide LStrip, RStrip, Peel, Print, AfterFenceLine, ReplyOf, IndexOf;
    var a, p, b := LStrip(pre), Print(v), RStrip(post);
    PrintedEnds(v);
    StripAround(pre, p, post);
    assert (pre + (p + post))[|pre|] == '{';
    LineBehind(a, p + b);
  }

  /** A line that ends only behind the object leaves nothing of it: any other object gives the same reply. */
  lemma ObjectOnTheFenceLineIsLost(pre: string, v: Syntax, w: Syntax, post: string)
    requires IsObject(v) && IsObject(w)
    requires FENCE <= LStrip(pre) && '\n' !in LStrip(pre) && '\n' in RStrip(post)
    requires '\n' !in Print(v) && '\n' !in Print(w)
    ensures Extract(pre + (Print(v) + post)) == Extract(pre + (Print(w) + post))
  {
    hide LStrip, RStrip, Behind, Peel, Print, Extract, IndexOf;
    LineBehindObject(Print(v), RStrip(post));
    LineBehindObject(Print(w), RStrip(post));
    BehindObject(v, post);
    BehindObject(w, post);
    ReplyIsFromBehind(pre, v, post);
    ReplyIsFromBehind(pre, w, post);
  }

  lemma BehindObject(v: Syntax, post: string)
    requires '\n' !in Print(v) && '\n' in RStrip(post)
    ensures IndexOf(RStrip(post), '\n') < |RStrip(post)|
    ensures Behind(v, post) == RStrip(post)[IndexOf(RStrip(post), '\n') + 1..]
  {
    hide RStrip, Print, IndexOf;
    LineBehindObject(Print(v), RStrip(post));
  }

  lemma LineBehindObject(p: string, b: string)
    requires '\n' !in p && '\n' in b
    ensures '\n' in p + b && IndexOf(b, '\n') < |b|
    ensures var n := IndexOf(p + b, '\n'); n < |p + b| && (p + b)[n + 1..] == b[IndexOf(b, '\n') + 1..]
  {
    hide IndexOf;
    IndexBehind(p, b, '\n');
    IndexIsFirst(b, '\n');
    assert b[..|b|] == b;
    var k := IndexOf(b, '\n');
    assert (p + b)[|p| + k] == b[k];
    assert (p + b)[|p| + k + 1..] == b[k + 1..];
  }

  /**
    When the first brace behind the line opens another object `u`, be it nested in the
    lost one or a later one, `u` comes out in its place, exactly unless the candidate
    reads as another value.
  */
  lemma NextObjectComesOut(pre: string, v: Syntax, post: string, lead: string, u: Syntax, trail: string)
    requires IsObject(v) && OnTheFenceLine(pre, v, post)
    requires IsObject(u) && '{' !in lead && Behind(v, post) == lead + (Print(u) + trail)
    ensures var c := Peel(Behind(v, post));
            && (Extract(pre + (Print(v) + post)) == Parsed(Value(u)) <==> Loads(c).None? || Loads(c) == Some(Value(u)))
            && (Loads(c).Some? && Loads(c) != Some(Value(u)) ==> SkipWs(c)[0] == '[' || SkipWs(c)[0] == '"')
  {
    hide Strip, WithoutClosingFence, WithoutTag, Print, Loads, Block;
    var p, behind := Print(u), Behind(v, post);
    ReplyIsFromBehind(pre, v, post);
    PrintedEnds(u);
    Surround(lead, p, trail);
    ClosingFenceHolds(behind, p);
    StripHolds(WithoutClosingFence(behind), p);
    TagHolds(Strip(WithoutClosingFence(behind)), p);
    var c := Peel(behind);
    var a, b :| '{' !in a && c == a + (p + b);
    BlockIsTheObject(a, u, b);
    if Loads(c).Some? {
      WholeCandidate(c, u);
    }
  }

  // ------------------------------------------------------------ counting braces

  /** An escape that writes an opening brace. */
  predicate EscapesBrace(s: string) {
    |s| >= 6 && s[0] == '\\' && s[1] == 'u' && Hex4(s[2..]) == Some(0x7B)
  }

  /** Opening braces in `s`, written out or escaped. */
  function Braces(s: string): nat {
    if s == "" then 0
    else if s[0] == '{' then 1 + Braces(s[1..])
    else if EscapesBrace(s) then 1 + Braces(s[6..])
    else if |s| > 1 && s[0] == '\\' && s[1] == '\\' then Braces(s[2..])
    else Braces(s[1..])
  }

  /** A character that no escape goes on with. */
  predicate Safe(c: char) {
    c != '\\' && c != 'u' && HexValue(c).None?
  }

  /** Counting splits at a cut beside such a character. */
  lemma {:induction false} CutBraces(x: string, y: string)
    requires x == "" || y == "" || Safe(x[|x| - 1]) || Safe(y[0])
    ensures Braces(x + y) == Braces(x) + Braces(y)
  {
    var s := x + y;
    if x == "" {
      assert s == y;
    } else if y == "" {
      assert s == x;
    } else if EscapesBrace(x) {
      DropAhead(x, y, 6);
      assert s[2..6] == x[2..6];
      CutBraces(x[6..], y);
    } else if |x| > 1 && x[0] == '\\' && x[1] == '\\' {
      DropAhead(x, y, 2);
      assert s[0] == x[0] && s[1] == x[1];
      CutBraces(x[2..], y);
    } else {
      NoEscapeAcross(x, y);
      DropAhead(x, y, 1);
      CutBraces(x[1..], y);
    }
  }

  lemma NoEscapeAcross(x: string, y: string)
    requires x != "" && y != "" && (Safe(x[|x| - 1]) || Safe(y[0])) && !EscapesBrace(x)
    ensures !EscapesBrace(x + y)
  {
    var s := x + y;
    if |x| >= 6 {
      assert s[2..][0] == x[2..][0] && s[2..][1] == x[2..][1] && s[2..][2] == x[2..][2] && s[2..][3] == x[2..][3];
    } else {
      assert s[|x| - 1] == x[|x| - 1] && s[|x|] == y[0];
    }
  }

  /** Text with neither a brace nor a backslash counts nothing. */
  lemma {:induction false} BareBraces(s: string, n: nat)
    requires Bare(s, n)
    ensures Braces(s) == Braces(s[n..])
  {
    if n == 0 {
      assert s[0..] == s;
    } else {
      assert s[..n][0] == s[0];
      assert s[..n] == [s[0]] + s[1..][..n - 1];
      BareBraces(s[1..], n - 1);
      assert s[1..][n - 1..] == s[n..];
    }
  }

  lemma NoBraces(s: string)
    requires |s| <= 1 && '{' !in s
    ensures Braces(s) == 0
  {
  }

  function Count<T(==)>(s: seq<T>, x: T): nat {
    if s == [] then 0 else (if s[0] == x then 1 else 0) + Count(s[1..], x)
  }

  /** Objects in a value, and opening braces in its texts and keys. */
  function Weight(v: Json): nat
    decreases v, 1
  {
    match v
    case Str(s) => Count(s, '{')
    case Wild(points) => Count(points, 0x7B)
    case Arr(items) => ItemsWeight(items)
    case Obj(members) => 1 + MembersWeight(members)
    case _ => 0
  }

  function ItemsWeight(items: seq<Json>): nat
    decreases items, 0
  {
    if items == [] then 0 else Weight(items[0]) + ItemsWeight(items[1..])
  }

  function MembersWeight(members: seq<Member>): nat
    decreases members, 0
  {
    if members == [] then 0 else MemberWeight(members[0]) + MembersWeight(members[1..])
  }

  function MemberWeight(m: Member): nat
    decreases m, 1
  {
    Weight(m.key) + Weight(m.value)
  }

  lemma {:induction false} CharsCount(points: seq<int>)
    requires AllScalar(points)
    ensures Count(Chars(points), '{') == Count(points, 0x7B)
  {
    if points != [] {
      assert Chars(points)[1..] == Chars(points[1..]);
      CharsCount(points[1..]);
    }
  }

  lemma TextWeight(points: seq<int>)
    ensures Weight(TextOf(points)) == Count(points, 0x7B)
  {
    if AllScalar(points) {
      CharsCount(points);
    }
  }

  // ------------------------------------------------- reading keeps their number

  lemma {:induction false} SkipWsBraces(s: string)
    ensures Braces(SkipWs(s)) == Braces(s)
  {
    if s != "" && IsWs(s[0]) {
      SkipWsBraces(s[1..]);
    }
  }

  /** The five characters behind the backslash of an escape that writes no brace. */
  lemma HexBraces(s: string)
    requires |s| >= 6 && s[0] == '\\' && s[1] == 'u' && Hex4(s[2..]).Some? && !EscapesBrace(s)
    ensures Braces(s) == Braces(s[6..])
  {
    var t := s[1..];
    assert t[0] == 'u' && t[1] == s[2..][0] && t[2] == s[2..][1] && t[3] == s[2..][2] && t[4] == s[2..][3];
    assert Bare(t, 5);
    BareBraces(t, 5);
    assert t[5..] == s[6..];
  }

  lemma EscapeBraces(s: string)
    requires s != "" && s[0] == '\\' && ReadEscape(s[1..]).Some?
    ensures var (n, t) := ReadEscape(s[1..]).value; Braces(s) == (if n == 0x7B then 1 else 0) + Braces(t)
  {
    hide Hex4;
    var e := s[1..];
    assert e[0] == s[1];
    if e[0] == 'u' {
      assert e[1..] == s[2..] && e[5..] == s[6..];
      var n, t := Hex4(e[1..]).value, s[6..];
      if n != 0x7B {
        HexBraces(s);
        if IsHigh(n) && BeginsLow(t) {
          HexBraces(t);
        }
      }
    } else {
      assert e[1..] == s[2..];
    }
  }

  lemma {:induction false} StringBraces(s: string)
    requires ReadString(s).Some?
    ensures var (points, rest) := ReadString(s).value; Braces(s) == Count(points, 0x7B) + Braces(rest)
    decreases |s|
  {
    hide ReadEscape, Braces;
    if s[0] == '\\' {
      var (n, t) := ReadEscape(s[1..]).value;
      EscapeBraces(s);
      StringBraces(t);
      ConsCount(n, ReadString(t).value.0);
    } else {
      StepBraces(s);
      if s[0] != '"' {
        StringBraces(s[1..]);
        ConsCount(s[0] as int, ReadString(s[1..]).value.0);
      }
    }
  }

  lemma ConsCount(n: int, points: seq<int>)
    ensures Count([n] + points, 0x7B) == (if n == 0x7B then 1 else 0) + Count(points, 0x7B)
  {
    assert ([n] + points)[1..] == points;
  }

  lemma ScalarBraces(s: string)
    requires ReadScalar(s).Some?
    ensures var (v, rest) := ReadScalar(s).value; Weight(v) == 0 && Braces(s) == Braces(rest)
  {
    hide NumberLength, Braces, Bare;
    ScalarChars(s);
    BareBraces(s, |s| - |ReadScalar(s).value.1|);
  }

  /** One character that is neither a brace nor a backslash. */
  lemma StepBraces(s: string)
    requires s != "" && s[0] != '\\'
    ensures Braces(s) == (if s[0] == '{' then 1 else 0) + Braces(s[1..])
  {
  }

  lemma {:induction false} ValueBraces(s: string)
    requires ReadValue(s).Some?
    ensures var (v, rest) := ReadValue(s).value; Braces(s) == Weight(v) + Braces(rest)
    decreases |s|, 1
  {
    hide Braces, ReadString, ReadScalar, ReadElems, ReadEntries, SkipWs, TextOf;
    if s[0] == '"' {
      StepBraces(s);
      StringBraces(s[1..]);
      TextWeight(ReadString(s[1..]).value.0);
    } else if s[0] == '[' || s[0] == '{' {
      StepBraces(s);
      SkipWsBraces(s[1..]);
      var t := SkipWs(s[1..]);
      if t != "" && t[0] == (if s[0] == '[' then ']' else '}') {
        StepBraces(t);
      } else if s[0] == '[' {
        ElemsBraces(t);
      } else {
        EntriesBraces(t);
      }
    } else {
      ScalarBraces(s);
    }
  }

  lemma {:induction false} ElemsBraces(s: string)
    requires ReadElems(s).Some?
    ensures var (vs, rest) := ReadElems(s).value; Braces(s) == ItemsWeight(vs) + Braces(rest)
    decreases |s|, 2
  {
    hide Braces, ReadValue, SkipWs, Weight;
    ValueBraces(s);
    var (v, t) := ReadValue(s).value;
    SkipWsBraces(t);
    var u := SkipWs(t);
    StepBraces(u);
    if u[0] == ']' {
      assert ItemsWeight([v]) == Weight(v);
    } else {
      SkipWsBraces(u[1..]);
      ElemsBraces(SkipWs(u[1..]));
      var vs := ReadElems(SkipWs(u[1..])).value.0;
      assert ([v] + vs)[1..] == vs;
    }
  }

  lemma {:induction false} EntriesBraces(s: string)
    requires ReadEntries(s).Some?
    ensures var (ms, rest) := ReadEntries(s).value; Braces(s) == MembersWeight(ms) + Braces(rest)
    decreases |s|, 2
  {
    hide Braces, ReadString, ReadValue, SkipWs, Weight, TextOf;
    StepBraces(s);
    StringBraces(s[1..]);
    var (key, a) := ReadString(s[1..]).value;
    TextWeight(key);
    SkipWsBraces(a);
    var b := SkipWs(a);
    StepBraces(b);
    SkipWsBraces(b[1..]);
    ValueBraces(SkipWs(b[1..]));
    var (v, t) := ReadValue(SkipWs(b[1..])).value;
    SkipWsBraces(t);
    var u := SkipWs(t);
    StepBraces(u);
    var m := Member(TextOf(key), v);
    if u[0] == '}' {
      assert MembersWeight([m]) == MemberWeight(m);
    } else {
      SkipWsBraces(u[1..]);
      EntriesBraces(SkipWs(u[1..]));
      var ms := ReadEntries(SkipWs(u[1..])).value.0;
      assert ([m] + ms)[1..] == ms;
    }
  }

  /** A text that reads as `v` writes exactly the braces of `v`. */
  lemma LoadsBraces(s: string)
    requires Loads(s).Some?
    ensures Braces(s) == Weight(Loads(s).value)
  {
    hide Braces, ReadValue, SkipWs;
    SkipWsBraces(s);
    ValueBraces(SkipWs(s));
    SkipWsBraces(ReadValue(SkipWs(s)).value.1);
    NoBraces("");
  }

  // ------------------------------------------- the extraction adds no braces

  /** The scan stops right behind a closing brace. */
  lemma {:induction false} ScanStopsAtBrace(s: string, depth: int, inStr: bool, esc: bool)
    requires Scan(s, depth, inStr, esc).Some?
    ensures var rest := Scan(s, depth, inStr, esc).value;
            var k := |s| - |rest|;
            k > 0 && s[k - 1] == '}' && rest == s[k..]
    decreases |s|
  {
    var rest := Scan(s, depth, inStr, esc).value;
    if rest != s[1..] || inStr || s[0] != '}' {
      var (d, i, e) := ScanNext(s[0], depth, inStr, esc);
      assert Scan(s[1..], d, i, e) == Some(rest);
      ScanStopsAtBrace(s[1..], d, i, e);
      var k := |s| - |rest|;
      assert s[1..][k - 2] == s[k - 1] && s[1..][k - 1..] == s[k..];
    }
  }

  lemma BlockBraces(c: string)
    requires Block(c).Some?
    ensures Braces(Block(c).value) <= Braces(c)
  {
    hide Braces, IndexOf, Scan;
    var start := IndexOf(c, '{');
    var s := c[start..];
    ScanStopsAtBrace(s, 0, false, false);
    var k := |s| - |Scan(s, 0, false, false).value|;
    assert Block(c).value == s[..k];
    assert s[..k] + s[k..] == s && c[..start] + s == c && s[0] == c[start];
    CutBraces(s[..k], s[k..]);
    CutBraces(c[..start], s);
  }

  /** What comes out never weighs more than what the candidate holds. */
  lemma ReplyBraces(c: string)
    requires ReplyOf(c).Parsed?
    ensures Weight(ReplyOf(c).json) <= Braces(c)
  {
    hide Braces, Weight, Loads, Block;
    if Loads(c).Some? {
      LoadsBraces(c);
    } else {
      BlockBraces(c);
      LoadsBraces(Block(c).value);
    }
  }

  lemma {:induction false} LStripBraces(s: string)
    ensures Braces(LStrip(s)) == Braces(s)
  {
    if s != "" && IsSpace(s[0]) {
      LStripBraces(s[1..]);
    }
  }

  lemma {:induction false} RStripBraces(s: string)
    ensures Braces(RStrip(s)) == Braces(s)
  {
    hide Braces;
    if s != "" && IsSpace(s[|s| - 1]) {
      var n := |s| - 1;
      RStripBraces(s[..n]);
      assert s == s[..n] + [s[n]];
      CutBraces(s[..n], [s[n]]);
      NoBraces([s[n]]);
    }
  }

  lemma PeelBraces(behind: string)
    ensures Braces(Peel(behind)) <= Braces(behind)
  {
    hide Braces, LStrip, RStrip;
    var s := WithoutClosingFence(behind);
    if EndsWith(behind, FENCE) {
      var n := |behind| - 3;
      assert behind == behind[..n] + behind[n..] && behind[n..] == FENCE;
      CutBraces(behind[..n], FENCE);
    }
    LStripBraces(s);
    RStripBraces(LStrip(s));
    var t := Strip(s);
    if HasJsonTag(t) {
      assert t == t[..5] + t[5..];
      CutBraces(t[..5], t[5..]);
      LStripBraces(t[5..]);
    }
  }

  // -------------------------------------------------- what the fence line costs

  /** The brace that opens the object stands on the lost line. */
  lemma BehindBraces(v: Syntax, post: string)
    requires IsObject(v) && '\n' in Print(v) + RStrip(post)
    ensures Braces(Behind(v, post)) < Weight(Value(v)) + Braces(post)
  {
    hide Braces, Weight, Value, Print, RStrip, IndexOf, Loads;
    var p, b := Print(v), RStrip(post);
    var s := p + b;
    PrintedEnds(v);
    LoadsPrinted(v);
    LoadsBraces(p);
    RStripBraces(post);
    CutBraces(p, b);
    var n := IndexOf(s, '\n');
    IndexIsFirst(s, '\n');
    assert s[..|s|] == s;
    assert s == s[..n + 1] + s[n + 1..] && s[..n + 1][n] == '\n';
    CutBraces(s[..n + 1], s[n + 1..]);
    StepBraces(s[..n + 1]);
  }

  /** Whatever comes out has fewer braces than the object and the text behind it have. */
  lemma LessComesOut(pre: string, v: Syntax, post: string)
    requires IsObject(v) && OnTheFenceLine(pre, v, post)
    ensures var reply := Extract(pre + (Print(v) + post));
            reply.Parsed? ==> Weight(reply.json) < Weight(Value(v)) + Braces(post)
  {
    hide Braces, Weight, Value, Print, LStrip, RStrip, Peel, ReplyOf, Extract, Behind;
    ReplyIsFromBehind(pre, v, post);
    var c := Peel(Behind(v, post));
    PeelBraces(Behind(v, post));
    BehindBraces(v, post);
    if ReplyOf(c).Parsed? {
      ReplyBraces(c);
    }
  }

  /**
    With no brace in front of the object and none behind it, it comes out exactly when
    the fence line, should there be one, ends before it and the candidate as a whole
    does not read as another value.
  */
  lemma ComesOutExactly(pre: string, v: Syntax, post: string)
    requires IsObject(v) && '{' !in pre
    ensures var text := pre + (Print(v) + post);
            var c := Candidate(text);
            Braces(post) == 0 ==>
              (Extract(text) == Parsed(Value(v))
               <==> FenceEndsBefore(pre, Print(v), post) && (Loads(c).None? || Loads(c) == Some(Value(v))))
  {
    hide Braces, Weight, Value, Print, Extract, Candidate, Loads;
    hide FenceEndsBefore, OnTheFenceLine;
    FenceLineExactly(pre, v, post);
    if FenceEndsBefore(pre, Print(v), post) {
      ExtractionInvertsPrinting(pre, v, post);
    } else {
      LessComesOut(pre, v, post);
    }
  }

  // ---------------------------------------------------------- a wrapped object

  /** An object with the single member `u`, on a line of its own. */
  function Wrapped(key: seq<Piece>, u: Syntax): Syntax {
    Dict("", [Entry("\n", key, "", "", u, "")])
  }

  lemma WrappedIsObject(key: seq<Piece>, u: Syntax)
    requires PiecesOk(key) && Ok(u)
    ensures IsObject(Wrapped(key, u))
  {
    var es := [Entry("\n", key, "", "", u, "")];
    assert EntriesOk(es[1..]) && EntriesOk(es);
  }

  lemma WrappedText(key: seq<Piece>, u: Syntax)
    ensures Print(Wrapped(key, u)) == ['{'] + (['\n'] + (QuotedTo(key, ":") + (Print(u) + "}")))
  {
    var e := Entry("\n", key, "", "", u, "");
    var tail := "" + (['}'] + "");
    assert tail == "}";
    PrintIsPrefix(u, "}");
    var value := Print(u) + "}";
    assert "" + ([':'] + ("" + value)) == ":" + value;
    QuotedThen(key, ":", value);
    assert EntriesTo([e], "") == e.lead + QuotedTo(key, "" + ([':'] + ("" + PrintTo(u, tail))));
  }

  /**
    When only the opening brace stands on the fence line, the member comes out and the
    object around it is lost.
  */
  lemma MemberComesOut(key: seq<Piece>, u: Syntax)
    requires PiecesOk(key) && '{' !in QuotedTo(key, ":") && IsObject(u)
    ensures Extract("```json " + (Print(Wrapped(key, u)) + "")) == Parsed(Value(u))
  {
    hide Print, QuotedTo, Value, Loads, Extract, Behind, Peel, OnTheFenceLine;
    var lead := QuotedTo(key, ":");
    WrappedIsObject(key, u);
    WrappedBehind(key, u);
    NextObjectComesOut("```json ", Wrapped(key, u), "", lead, u, "}");
    Regroup(lead, Print(u), "}");
    WrappedIsNoText(key, Print(u) + "}");
    NothingToPeel(key, Print(u));
  }

  lemma WrappedBehind(key: seq<Piece>, u: Syntax)
    ensures OnTheFenceLine("```json ", Wrapped(key, u), "")
    ensures Behind(Wrapped(key, u), "") == QuotedTo(key, ":") + (Print(u) + "}")
  {
    hide Print, QuotedTo, IndexOf, LStrip, RStrip;
    var behind := QuotedTo(key, ":") + (Print(u) + "}");
    WrappedText(key, u);
    PlainFence();
    var s := ['{'] + (['\n'] + behind);
    assert s + "" == s && s[1] == '\n';
    SecondLine(behind);
  }

  lemma PlainFence()
    ensures RStrip("") == "" && LStrip("```json ") == "```json "
    ensures FENCE <= "```json " && '\n' !in "```json "
  {
  }

  lemma SecondLine(behind: string)
    ensures var s := ['{'] + (['\n'] + behind); IndexOf(s, '\n') == 1 && s[2..] == behind
  {
    hide IndexOf;
    IndexBehind(['{'], ['\n'] + behind, '\n');
    IndexAfter("", '\n', ['\n'] + behind);
    assert "" + (['\n'] + behind) == ['\n'] + behind;
  }

  lemma NothingToPeel(key: seq<Piece>, p: string)
    ensures var s := QuotedTo(key, ":") + (p + "}"); Peel(s) == s
  {
    hide PiecesTo;
    var s := QuotedTo(key, ":") + (p + "}");
    assert s[0] == '"' && s[|s| - 1] == '}';
    assert FENCE[2] == '`' && (|s| >= 3 ==> s[|s| - 3..][2] == '}');
  }

  /** A key with a colon behind it is no JSON text. */
  lemma WrappedIsNoText(key: seq<Piece>, rest: string)
    requires PiecesOk(key)
    ensures Loads(QuotedTo(key, ":") + rest).None?
  {
    hide PiecesTo, ReadString, PiecesPoints;
    QuotedThen(key, ":", rest);
    var s := QuotedTo(key, ":" + rest);
    ReadPieces(key, ":" + rest);
    Head('"', PiecesTo(key, ['"'] + (":" + rest)));
    assert (":" + rest)[0] == ':';
  }
}
