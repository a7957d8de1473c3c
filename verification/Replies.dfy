/**
  Which replies are accepted, and with what value (content_tool/gemini/client.py).

  A value that comes out is always one that stands in the reply. A reply is rejected
  exactly when neither the peeled text nor the first balanced block in it is JSON.
*/
module Replies {
  import opened Wrappers
  import opened PyStr
  import opened Json
  import opened Seqs
  import opened GeminiExtract

  // --------------------------------------------------- the first balanced block

  /** From its opening brace on, `block` closes at its last character and not before. */
  predicate Closes(block: string) {
    block != "" && block[0] == '{' && Scan(block, 0, false, false) == Some("")
  }

  /** `c[i..j]` is a balanced block, and no brace opens before it. */
  predicate FirstBlockAt(c: string, i: nat, j: nat) {
    i <= j <= |c| && '{' !in c[..i] && Closes(c[i..j])
  }

  lemma {:induction false} ScanAhead(a: string, b: string, depth: int, inStr: bool, esc: bool)
    requires Scan(a, depth, inStr, esc).Some?
    ensures Scan(a + b, depth, inStr, esc) == Some(Scan(a, depth, inStr, esc).value + b)
    decreases |a|
  {
    DropAhead(a, b, 1);
    if Scan(a, depth, inStr, esc).value != a[1..] || inStr || a[0] != '}' {
      var (d, i, e) := ScanNext(a[0], depth, inStr, esc);
      assert Scan(a, depth, inStr, esc) == Scan(a[1..], d, i, e);
      ScanAhead(a[1..], b, d, i, e);
    }
  }

  /** What the scan went over is a text that it goes over exactly. */
  lemma {:induction false} ScanUpTo(s: string, depth: int, inStr: bool, esc: bool) returns (a: string)
    requires Scan(s, depth, inStr, esc).Some?
    ensures s == a + Scan(s, depth, inStr, esc).value && Scan(a, depth, inStr, esc) == Some("")
    decreases |s|
  {
    var rest := Scan(s, depth, inStr, esc).value;
    var t := s[1..];
    if rest != t || inStr || s[0] != '}' {
      var (d, i, e) := ScanNext(s[0], depth, inStr, esc);
      assert Scan(s, depth, inStr, esc) == Scan(t, d, i, e);
      var b := ScanUpTo(t, d, i, e);
      a := [s[0]] + b;
      Head(s[0], b);
      Regroup([s[0]], b, rest);
      assert s == [s[0]] + t;
    } else {
      a := [s[0]];
      assert s == [s[0]] + t && a[1..] == "";
    }
  }

  lemma ScanNeedsText(s: string)
    requires Scan(s, 0, false, false).Some?
    ensures s != ""
  {
  }

  /** The block of a candidate, by its place. */
  lemma BlockIsAt(c: string, i: nat, j: nat)
    requires FirstBlockAt(c, i, j)
    ensures Block(c) == Some(c[i..j])
  {
    hide Scan, IndexOf;
    var s := c[i..];
    assert s == c[i..j] + c[j..] && c == c[..i] + s && s[0] == '{';
    IndexAfter(c[..i], '{', s);
    ScanAhead(c[i..j], c[j..], 0, false, false);
    assert "" + c[j..] == c[j..];
  }

  lemma BlockHasPlace(c: string) returns (i: nat, j: nat)
    requires Block(c).Some?
    ensures FirstBlockAt(c, i, j) && Block(c) == Some(c[i..j])
  {
    hide Scan, IndexOf;
    i := IndexOf(c, '{');
    var s := c[i..];
    IndexIsFirst(c, '{');
    var a := ScanUpTo(s, 0, false, false);
    j := i + |a|;
    assert |c| - |Scan(s, 0, false, false).value| == j && c[i..j] == s[..|a|] == a;
    assert a != "" && a[0] == s[0] by { ScanNeedsText(a); }
  }

  // -------------------------------------------------------- what is accepted

  /** The reply to the peeled text `c`: its value, or that of its first block. */
  lemma AcceptedExactly(text: string, v: Json)
    requires text != ""
    ensures var c := Candidate(text);
            Extract(text) == Parsed(v) <==>
            || Loads(c) == Some(v)
            || (Loads(c).None? && exists i: nat, j: nat :: FirstBlockAt(c, i, j) && Loads(c[i..j]) == Some(v))
  {
    hide Candidate, FirstBlockAt, Block, Loads;
    var c := Candidate(text);
    if Block(c).Some? {
      var i, j := BlockHasPlace(c);
      FirstBlockFits(c, i, j);
    }
    forall i: nat, j: nat | FirstBlockAt(c, i, j)
      ensures i <= j <= |c| && Block(c) == Some(c[i..j])
    {
      FirstBlockFits(c, i, j);
      BlockIsAt(c, i, j);
    }
  }

  lemma FirstBlockFits(c: string, i: nat, j: nat)
    requires FirstBlockAt(c, i, j)
    ensures i <= j <= |c|
  {
  }

  /** A reply is an error exactly when there is text, the peeled text is no JSON, and
      neither is its first balanced block, if it has one. */
  lemma RejectedExactly(text: string)
    ensures var c := Candidate(text);
            Extract(text) == NotJson <==>
            && text != ""
            && Loads(c).None?
            && forall i: nat, j: nat :: FirstBlockAt(c, i, j) ==> Loads(c[i..j]).None?
  {
    hide Candidate, FirstBlockAt, Block, Loads;
    var c := Candidate(text);
    if Block(c).Some? {
      var i, j := BlockHasPlace(c);
      FirstBlockFits(c, i, j);
    }
    forall i: nat, j: nat | FirstBlockAt(c, i, j)
      ensures i <= j <= |c| && Block(c) == Some(c[i..j])
    {
      FirstBlockFits(c, i, j);
      BlockIsAt(c, i, j);
    }
  }

  /** Without an opening brace there is no second chance. */
  lemma NoBraceNoBlock(text: string)
    requires text != "" && '{' !in text && Loads(Candidate(text)).None?
    ensures Extract(text) == NotJson
  {
    hide Candidate, Loads;
    var c := Candidate(text);
    var a, b := CandidateIsSlice(text);
    RejectedExactly(text);
    forall i: nat, j: nat
      ensures !FirstBlockAt(c, i, j)
    {
      if i < j <= |c| {
        assert c[i..j][0] == c[i] == text[a + i];
      }
    }
  }

  // ------------------------------------------------- values stand in the reply

  lemma Slices(s: string, a: nat, b: nat, i: nat, j: nat)
    requires a <= b <= |s| && i <= j <= b - a
    ensures s[a..b][i..j] == s[a + i..a + j]
  {
    assert forall k :: 0 <= k < j - i ==> s[a..b][i..j][k] == s[a..b][i + k] == s[a + i..a + j][k];
  }

  lemma StripIsSlice(s: string) returns (a: nat, b: nat)
    ensures a <= b <= |s| && Strip(s) == s[a..b]
  {
    LStripIsSuffix(s);
    RStripIsPrefix(LStrip(s));
    a := |s| - |LStrip(s)|;
    b := a + |Strip(s)|;
  }

  lemma PeelIsSlice(s: string) returns (a: nat, b: nat)
    ensures a <= b <= |s| && Peel(s) == s[a..b]
  {
    hide Strip, LStrip, RStrip;
    var open := WithoutClosingFence(s);
    assert open == s[0..|open|];
    var i, j := StripIsSlice(open);
    Slices(s, 0, |open|, i, j);
    a, b := i, j;
    var t := Strip(open);
    if HasJsonTag(t) {
      LStripIsSuffix(t[5..]);
      a := b - |LStrip(t[5..])|;
      assert LStrip(t[5..]) == t[|t| - |LStrip(t[5..])|..|t|];
      Slices(s, i, j, |t| - |LStrip(t[5..])|, |t|);
    }
  }

  lemma CandidateIsSlice(text: string) returns (a: nat, b: nat)
    ensures a <= b <= |text| && Candidate(text) == text[a..b]
  {
    hide Strip, Peel, IndexOf;
    a, b := StripIsSlice(text);
    var s := Strip(text);
    if FENCE <= s {
      var t := AfterFenceLine(s);
      var k := |s| - |t|;
      assert t == s[k..|s|];
      Slices(text, a, b, k, |s|);
      var i, j := PeelIsSlice(t);
      Slices(text, a + k, b, i, j);
      a, b := a + k + i, a + k + j;
    }
  }

  /** Whatever value comes out of a reply is written in a stretch of it. */
  lemma ValueStandsInReply(text: string, v: Json)
    requires text != "" && Extract(text) == Parsed(v)
    ensures exists i: nat, j: nat :: i <= j <= |text| && Loads(text[i..j]) == Some(v)
  {
    hide Candidate, Loads, Extract;
    var c := Candidate(text);
    var a, b := CandidateIsSlice(text);
    AcceptedExactly(text, v);
    if Loads(c) != Some(v) {
      var i: nat, j: nat :| FirstBlockAt(c, i, j) && Loads(c[i..j]) == Some(v);
      Slices(text, a, b, i, j);
      assert Loads(text[a + i..a + j]) == Some(v);
    }
  }

  // ------------------------------------------- values alone, bare or fenced

  predicate AllSpace(s: string) {
    forall i :: 0 <= i < |s| ==> IsSpace(s[i])
  }

  /** What a printed value begins with is neither white space, a fence nor a tag. */
  lemma PrintedFirst(v: Syntax)
    requires Ok(v)
    ensures var p := Print(v); p != "" && !IsSpace(p[0]) && p[0] != '`' && p[0] != 'j' && p[0] != 'J'
  {
    hide IsSpace;
    PlainHeads();
    match v
    case Number(text) =>
      NumberHead(text);
      assert text + "" == text;
      DigitsAreNoSpace(text[0]);
    case Literal(value) =>
      assert LiteralText(value) + "" == LiteralText(value);
    case _ =>
  }

  lemma PlainHeads()
    ensures !IsSpace('n') && !IsSpace('t') && !IsSpace('f') && !IsSpace('l') && !IsSpace('e')
    ensures !IsSpace('"') && !IsSpace('[') && !IsSpace('{') && !IsSpace(']') && !IsSpace('}') && !IsSpace('`')
  {
  }

  lemma DigitsAreNoSpace(c: char)
    ensures IsDigit(c) || c in "-+.eENIy" ==>
              !IsSpace(c) && c != '`' && c != 'j' && c != 'J'
  {
  }

  /** What it ends with is neither white space nor a fence. */
  lemma PrintedLast(v: Syntax)
    requires Ok(v)
    ensures var p := Print(v); p != "" && !IsSpace(p[|p| - 1]) && p[|p| - 1] != '`'
  {
    hide IsSpace, NumberLength;
    PlainHeads();
    match v
    case Number(text) =>
      NumberHasNumberChars(text);
      NumberHead(text);
      assert text + "" == text && text[..|text|] == text;
      DigitsAreNoSpace(text[|text| - 1]);
    case Literal(value) =>
      assert LiteralText(value) + "" == LiteralText(value);
    case Text(pieces) =>
      QuotedLast(pieces);
    case List(gap, elems) =>
      if elems == [] {
        assert Print(v) == ['['] + (gap + ([']'] + ""));
      } else {
        ElemsEnd(elems);
        LastOf(['['], ElemsTo(elems, ""));
      }
    case Dict(gap, entries) =>
      PrintedEnds(v);
  }

  lemma QuotedLast(ps: seq<Piece>)
    ensures var p := QuotedTo(ps, ""); p != "" && p[|p| - 1] == '"'
  {
    PiecesThen(ps, "", "\"");
    assert "" + "\"" == "\"" && ['"'] + "" == "\"";
    LastOf(PiecesTo(ps, ""), "\"");
    LastOf(['"'], PiecesTo(ps, "\""));
  }

  lemma {:induction false} SpacesGo(s: string)
    requires AllSpace(s)
    ensures LStrip(s) == "" && RStrip(s) == ""
  {
    RStripSpaces(s);
    if s != "" {
      SpacesGo(s[1..]);
    }
  }

  lemma StripToCore(a: string, p: string, b: string)
    requires AllSpace(a) && AllSpace(b) && p != "" && !IsSpace(p[0]) && !IsSpace(p[|p| - 1])
    ensures Strip(a + (p + b)) == p
  {
    StripAround(a, p, b);
    SpacesGo(a);
    SpacesGo(b);
    assert "" + (p + "") == p;
  }

  /** Any value, in any layout, with white space around it. */
  lemma BareValueIsRead(lead: string, v: Syntax, trail: string)
    requires Ok(v) && AllSpace(lead) && AllSpace(trail)
    ensures Extract(lead + (Print(v) + trail)) == Parsed(Value(v))
  {
    hide Strip, Print, Loads, IsSpace, Value;
    PrintedFirst(v);
    PrintedLast(v);
    StripToCore(lead, Print(v), trail);
    LoadsPrinted(v);
    assert FENCE[0] == '`';
  }

  /** What the peeling makes of a value behind a fence line: `tag` is a `json` line in any case, or nothing. */
  lemma PeeledValue(lead: string, tag: string, gap: string, v: Syntax, trail: string, close: string)
    requires Ok(v) && AllSpace(lead) && AllSpace(gap) && AllSpace(trail)
    requires (tag == "" && gap == "") || (|tag| == 5 && HasJsonTag(tag))
    requires close == FENCE || (close == "" && trail == "")
    ensures Peel(lead + (tag + (gap + Print(v))) + (trail + close)) == Print(v)
  {
    hide Strip, Print, IsSpace, LStrip, RStrip, WithoutClosingFence;
    var core := tag + (gap + Print(v));
    var s := lead + core + (trail + close);
    PrintedFirst(v);
    PrintedLast(v);
    LastOf(gap, Print(v));
    LastOf(tag, gap + Print(v));
    TagIsNoSpace();
    assert tag != "" ==> core[0] == tag[0];
    FenceOff(lead, core, trail, close);
    StripToCore(lead, core, trail);
    if tag == "" {
      assert core == Print(v);
    } else {
      assert core[5..] == gap + Print(v) && core[..5] == tag;
      LStripUpTo(gap, Print(v));
      SpacesGo(gap);
      assert "" + Print(v) == Print(v);
    }
  }

  lemma FenceOff(lead: string, core: string, trail: string, close: string)
    requires core != "" && core[|core| - 1] != '`' && (close == FENCE || (close == "" && trail == ""))
    ensures WithoutClosingFence(lead + core + (trail + close)) == lead + (core + trail)
  {
    var s := lead + core + (trail + close);
    LastOf(lead, core);
    if close == "" {
      assert s == lead + core && lead + (core + trail) == lead + core;
      NoFenceAtEnd(s);
    } else {
      assert s[..|s| - 3] == lead + (core + trail) && s[|s| - 3..] == FENCE;
    }
  }

  lemma TagIsNoSpace()
    ensures !IsSpace('j') && !IsSpace('J')
  {
  }

  lemma NoFenceAtEnd(s: string)
    requires s != "" && s[|s| - 1] != '`'
    ensures !EndsWith(s, FENCE)
  {
    assert FENCE[2] == '`' && (|s| >= 3 ==> s[|s| - 3..][2] == s[|s| - 1]);
  }

  /**
    Any value in a code fence: behind the fence's line, whatever that says, and a `json`
    line of its own if there is one, up to the closing fence if there is one.
  */
  lemma FencedValueIsRead(before: string, info: string, lead: string, tag: string, gap: string, v: Syntax,
                          trail: string, close: string, after: string)
    requires Ok(v) && AllSpace(before) && AllSpace(lead) && AllSpace(gap) && AllSpace(trail) && AllSpace(after)
    requires '\n' !in info
    requires (tag == "" && gap == "") || (|tag| == 5 && HasJsonTag(tag))
    requires close == FENCE || (close == "" && trail == "")
    ensures var body := lead + (tag + (gap + Print(v))) + (trail + close);
            Extract(before + ((FENCE + (info + ("\n" + body))) + after)) == Parsed(Value(v))
  {
    hide Strip, Print, Loads, IsSpace, Value, IndexOf, Peel;
    var body := lead + (tag + (gap + Print(v))) + (trail + close);
    var s := FENCE + (info + ("\n" + body));
    PlainHeads();
    BodyEnds(lead + (tag + gap), v, trail, close);
    assert lead + (tag + gap) + Print(v) + (trail + close) == body;
    LastOf("\n", body);
    LastOf(info, "\n" + body);
    LastOf(FENCE, info + ("\n" + body));
    assert s[0] == FENCE[0] == '`' && s[..3] == FENCE;
    StripToCore(before, s, after);
    FirstLineGoes(info, body);
    PeeledValue(lead, tag, gap, v, trail, close);
    LoadsPrinted(v);
    assert before + (s + after) != "";
  }

  lemma BodyEnds(front: string, v: Syntax, trail: string, close: string)
    requires Ok(v) && (close == FENCE || (close == "" && trail == ""))
    ensures var s := front + Print(v) + (trail + close); s != "" && !IsSpace(s[|s| - 1])
  {
    hide Print;
    var s := front + Print(v) + (trail + close);
    PrintedLast(v);
    if close == "" {
      assert s == front + Print(v);
      LastOf(front, Print(v));
    } else {
      LastOf(trail, close);
      LastOf(front + Print(v), trail + close);
    }
  }

  lemma FirstLineGoes(info: string, body: string)
    requires '\n' !in info
    ensures var s := FENCE + (info + ("\n" + body)); FENCE <= s && AfterFenceLine(s) == body
  {
    hide IndexOf;
    var s := FENCE + (info + ("\n" + body));
    assert s == (FENCE + info) + ("\n" + body) && s[..3] == FENCE;
    IndexAfter(FENCE + info, '\n', "\n" + body);
    assert s[|FENCE + info|] == '\n' && s[|FENCE + info| + 1..] == body;
  }

  /** A fence and its value on one line. */
  lemma FencedLineIsRead(before: string, lead: string, v: Syntax, trail: string, close: string, after: string)
    requires Ok(v) && AllSpace(before) && AllSpace(lead) && AllSpace(trail) && AllSpace(after)
    requires close == FENCE || (close == "" && trail == "")
    requires '\n' !in lead + Print(v) + (trail + close)
    ensures Extract(before + ((FENCE + (lead + Print(v) + (trail + close))) + after)) == Parsed(Value(v))
  {
    hide Strip, Print, Loads, IsSpace, Value, IndexOf, Peel;
    var body := lead + Print(v) + (trail + close);
    var s := FENCE + body;
    PlainHeads();
    BodyEnds(lead, v, trail, close);
    LastOf(FENCE, body);
    assert s[0] == FENCE[0] == '`' && s[..3] == FENCE && s[3..] == body;
    StripToCore(before, s, after);
    assert '\n' !in FENCE && '\n' !in s;
    assert "" + ("" + Print(v)) == Print(v);
    PeeledValue(lead, "", "", v, trail, close);
    LoadsPrinted(v);
    assert before + (s + after) != "";
  }

  /** No text at all is an empty object; a fence is three backticks; a tag line says json
      in letters of either case. */
  lemma SmallPrint(s: string)
    ensures Extract("") == Parsed(Obj([])) && FENCE == "```"
    ensures HasJsonTag(s) <==>
              |s| >= 5 && s[0] in "jJ" && s[1] in "sS" && s[2] in "oO" && s[3] in "nN" && s[4] == '\n'
  {
  }
}
