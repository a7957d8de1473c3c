/**
  The FAQ accordion: printed by content_tool/agents/render_html.py, cut into one token
  per question and answer by web/lib/faq-diff.ts.
*/
module FaqWidget {
  import opened Wrappers
  import opened Seqs

  // --------------------------------------------------------------- searching

  /** `s` from the first occurrence of `pat` on. */
  function From(s: string, pat: string): (t: Option<string>)
    ensures t.Some? ==> pat <= t.value && |t.value| <= |s|
  {
    if pat <= s then Some(s) else if s == "" then None else From(s[1..], pat)
  }

  predicate Contains(s: string, pat: string) {
    From(s, pat).Some?
  }

  /** What stands before the first `pat`; all of `s` when there is none. */
  function Before(s: string, pat: string): string {
    match From(s, pat) case None => s case Some(t) => if |t| <= |s| then s[..|s| - |t|] else s
  }

  /** The first group of the pattern `open` (lazy anything) `close`. */
  function Between(s: string, open: string, close: string): Option<string> {
    match From(s, open)
    case None => None
    case Some(t) =>
      var inner := t[|open|..];
      if Contains(inner, close) then Some(Before(inner, close)) else None
  }

  /** A piece whose only candidate for `pat` fails at position `k` is skipped. */
  lemma {:induction false} SkipPiece(x: string, y: string, pat: string, k: nat)
    requires k < |x| && k < |pat| && x[k] != pat[k] && pat[0] !in x[1..]
    ensures From(x + y, pat) == From(y, pat)
  {
    assert (x + y)[k] == x[k];
    assert (x + y)[1..] == x[1..] + y;
    SkipText(x[1..], y, pat);
  }

  lemma {:induction false} SkipText(x: string, y: string, pat: string)
    requires pat != "" && pat[0] !in x
    ensures From(x + y, pat) == From(y, pat)
  {
    if x == "" {
      assert x + y == y;
    } else {
      assert (x + y)[0] == x[0] && x[0] in x;
      assert (x + y)[1..] == x[1..] + y;
      SkipText(x[1..], y, pat);
    }
  }

  lemma NoStraddle(x: string, y: string, pat: string)
    requires pat != "" && pat[0] !in pat[1..] && x != "" && !(pat <= x) && y != "" && y[0] == pat[0]
    ensures !(pat <= x + y)
  {
    assert |pat| <= |x| ==> (x + y)[..|pat|] == x[..|pat|];
    assert |x| < |pat| ==> pat[|x|] == pat[1..][|x| - 1] && (x + y)[|x|] == y[0];
  }

  /** Text without `pat`, in front of something that begins like `pat` does. */
  lemma {:induction false} SkipFree(x: string, y: string, pat: string)
    requires pat != "" && pat[0] !in pat[1..] && !Contains(x, pat) && y != "" && y[0] == pat[0]
    ensures From(x + y, pat) == From(y, pat)
  {
    if x == "" {
      assert x + y == y;
    } else {
      assert (x + y)[1..] == x[1..] + y;
      SkipFree(x[1..], y, pat);
      NoStraddle(x, y, pat);
    }
  }

  lemma FoundHere(pat: string, rest: string)
    ensures From(pat + rest, pat) == Some(pat + rest) && (pat + rest)[|pat|..] == rest
  {
  }

  /** Everything up to the closing pattern is the group. */
  lemma BeforeFree(x: string, pat: string, rest: string)
    requires pat != "" && pat[0] !in pat[1..] && !Contains(x, pat)
    ensures Contains(x + (pat + rest), pat) && Before(x + (pat + rest), pat) == x
  {
    SkipFree(x, pat + rest, pat);
    FoundHere(pat, rest);
    assert (x + (pat + rest))[..|x|] == x;
  }

  // ------------------------------------------------------------- div matching

  predicate IsWord(c: char) {
    'a' <= c <= 'z' || 'A' <= c <= 'Z' || '0' <= c <= '9' || c == '_'
  }

  /** `div` at position `i`, in either case, up to a word boundary. */
  predicate DivAt(s: string, i: nat) {
    |s| >= i + 3 && (s[i] == 'd' || s[i] == 'D') && (s[i + 1] == 'i' || s[i + 1] == 'I')
    && (s[i + 2] == 'v' || s[i + 2] == 'V') && (|s| > i + 3 ==> !IsWord(s[i + 3]))
  }

  /** Position just behind the first `>`, if there is one. */
  function BehindGt(s: string): (n: Option<nat>)
    ensures n.Some? ==> 0 < n.value <= |s|
  {
    if s == "" then None
    else if s[0] == '>' then Some(1)
    else match BehindGt(s[1..]) case None => None case Some(n) => Some(n + 1)
  }

  datatype Tag = Tag(closing: bool, length: nat)

  /** The div tag at the head of `s`: name in either case, word boundary, then up to `>`. */
  function TagAt(s: string): (tag: Option<Tag>)
    ensures tag.Some? ==> 0 < tag.value.length <= |s|
  {
    if s == "" || s[0] != '<' then None
    else
      var closing := |s| > 1 && s[1] == '/';
      var name := if closing then 2 else 1;
      if !DivAt(s, name) then None
      else match BehindGt(s[name + 3..]) case None => None case Some(n) => Some(Tag(closing, name + 3 + n))
  }

  /** How much of `s` is read until the div depth comes back to zero; all of it if it never does. */
  function CloseFrom(s: string, depth: int): (n: nat)
    ensures n <= |s| && (s != "" ==> n > 0)
    decreases |s|
  {
    if s == "" then 0
    else match TagAt(s)
      case None => 1 + CloseFrom(s[1..], depth)
      case Some(tag) =>
        if tag.closing then
          if depth - 1 == 0 then tag.length else tag.length + CloseFrom(s[tag.length..], depth - 1)
        else tag.length + CloseFrom(s[tag.length..], depth + 1)
  }

  /** `exec` of the tag pattern from position `i` on. */
  function NextTag(html: string, i: nat): (m: Option<(nat, Tag)>)
    requires i <= |html|
    ensures m.Some? ==> i <= m.value.0 < |html| && m.value.0 + m.value.1.length <= |html| && m.value.1.length > 0
    decreases |html| - i
  {
    if i == |html| then None
    else match TagAt(html[i..]) case None => NextTag(html, i + 1) case Some(tag) => Some((i, tag))
  }

  /** Where the depth comes back to zero, reading on from position `i`; the end if it never does. */
  function EndFrom(html: string, i: nat, depth: int): (end: nat)
    requires i <= |html|
    ensures end <= |html| && (i < |html| ==> i < end)
    decreases |html| - i
  {
    match NextTag(html, i)
    case None => |html|
    case Some((at, tag)) => EndBehind(html, at, tag, depth)
  }

  function EndBehind(html: string, at: nat, tag: Tag, depth: int): (end: nat)
    requires at + tag.length <= |html| && tag.length > 0
    ensures at < end <= |html|
    decreases |html| - at, 0
  {
    var next := at + tag.length;
    if tag.closing && depth - 1 == 0 then next
    else EndFrom(html, next, if tag.closing then depth - 1 else depth + 1)
  }

  /** `matchDivClose`. */
  method MatchDivClose(html: string, openIdx: nat) returns (end: nat)
    requires openIdx <= |html|
    ensures end == EndFrom(html, openIdx, 0)
  {
    var lastIndex, depth := openIdx, 0;
    while true
      invariant lastIndex <= |html|
      invariant EndFrom(html, openIdx, 0) == EndFrom(html, lastIndex, depth)
      decreases |html| - lastIndex
    {
      var m := NextTag(html, lastIndex);
      if m.None? {
        return |html|;
      }
      lastIndex := m.value.0 + m.value.1.length;
      if m.value.1.closing {
        depth := depth - 1;
        if depth == 0 {
          return lastIndex;
        }
      } else {
        depth := depth + 1;
      }
    }
  }

  /** The part of `html` from `i` on is read as that text alone would be. */
  lemma {:induction false} EndIsClose(html: string, i: nat, depth: int)
    requires i <= |html|
    ensures EndFrom(html, i, depth) == i + CloseFrom(html[i..], depth)
    decreases |html| - i
  {
    if i < |html| {
      var tag := TagAt(html[i..]);
      if tag.None? {
        assert html[i..][1..] == html[i + 1..];
        EndIsClose(html, i + 1, depth);
      } else {
        EndIsCloseBehind(html, i, tag.value, depth);
      }
    }
  }

  lemma {:induction false} EndIsCloseBehind(html: string, at: nat, tag: Tag, depth: int)
    requires at < |html| && TagAt(html[at..]) == Some(tag)
    ensures EndBehind(html, at, tag, depth) == at + CloseFrom(html[at..], depth)
    decreases |html| - at, 0
  {
    var next := at + tag.length;
    assert html[at..][tag.length..] == html[next..];
    EndIsClose(html, next, if tag.closing then depth - 1 else depth + 1);
  }

  // ------------------------------------------------------------- nested divs

  /** A div: attributes, leading text, the divs inside it, and the text behind its closing tag. */
  datatype Div = Div(attrs: string, text: string, kids: seq<Div>, after: string)

  function DivTo(d: Div, rest: string): string
    decreases d, 1
  {
    "<div" + (d.attrs + (">" + (d.text + KidsTo(d.kids, "</div>" + (d.after + rest)))))
  }

  function KidsTo(ds: seq<Div>, rest: string): string
    decreases ds, 0
  {
    if ds == [] then rest else DivTo(ds[0], KidsTo(ds[1..], rest))
  }

  /** Text in which no div tag begins. */
  predicate Inert(t: string) {
    t == "" || (!BeginsDiv(t) && Inert(t[1..]))
  }

  predicate BeginsDiv(t: string) {
    |t| >= 2 && t[0] == '<' && (DivAt(t, 1) || (t[1] == '/' && DivAt(t, 2)))
  }

  predicate AttrsOk(attrs: string) {
    attrs != "" ==> !IsWord(attrs[0]) && '>' !in attrs
  }

  predicate DivOk(d: Div)
    decreases d, 1
  {
    AttrsOk(d.attrs) && Inert(d.text) && Inert(d.after) && KidsOk(d.kids)
  }

  predicate KidsOk(ds: seq<Div>)
    decreases ds, 0
  {
    ds == [] || (DivOk(ds[0]) && KidsOk(ds[1..]))
  }

  lemma DivAtAhead(t: string, rest: string, i: nat)
    requires i <= |t| && !DivAt(t, i) && rest != "" && rest[0] == '<'
    ensures !DivAt(t + rest, i)
  {
    assert (t + rest)[|t|] == '<';
  }

  lemma NoDivAhead(t: string, rest: string)
    requires t != "" && !BeginsDiv(t) && rest != "" && rest[0] == '<'
    ensures !BeginsDiv(t + rest)
  {
    var s := t + rest;
    assert s[|t|] == '<' && s[0] == t[0];
    if |t| >= 2 && t[0] == '<' {
      assert s[1] == t[1];
      DivAtAhead(t, rest, 1);
      if t[1] == '/' {
        DivAtAhead(t, rest, 2);
      }
    }
  }

  lemma TagIsDiv(s: string)
    requires !BeginsDiv(s)
    ensures TagAt(s).None?
  {
  }

  lemma {:induction false} CloseInert(t: string, rest: string, depth: int)
    requires Inert(t) && rest != "" && rest[0] == '<'
    ensures CloseFrom(t + rest, depth) == |t| + CloseFrom(rest, depth)
  {
    if t == "" {
      assert t + rest == rest;
    } else {
      assert (t + rest)[1..] == t[1..] + rest;
      NoDivAhead(t, rest);
      TagIsDiv(t + rest);
      CloseInert(t[1..], rest, depth);
    }
  }

  lemma {:induction false} BehindAttrs(attrs: string, rest: string)
    requires '>' !in attrs
    ensures BehindGt(attrs + (">" + rest)) == Some(|attrs| + 1)
  {
    if attrs == "" {
      assert attrs + (">" + rest) == ">" + rest;
    } else {
      assert (attrs + (">" + rest))[1..] == attrs[1..] + (">" + rest);
      BehindAttrs(attrs[1..], rest);
    }
  }

  lemma OpenTag(attrs: string, rest: string)
    requires AttrsOk(attrs)
    ensures var s := "<div" + (attrs + (">" + rest));
            TagAt(s) == Some(Tag(false, 5 + |attrs|)) && s[5 + |attrs|..] == rest
  {
    var tail := attrs + (">" + rest);
    var s := "<div" + tail;
    assert s[0] == '<' && s[1] == 'd' && s[2] == 'i' && s[3] == 'v' && s[4] == tail[0];
    assert s[4..] == tail;
    BehindAttrs(attrs, rest);
    assert tail[|attrs| + 1..] == rest;
  }

  lemma CloseTag(rest: string)
    ensures var s := "</div>" + rest; TagAt(s) == Some(Tag(true, 6)) && s[6..] == rest
  {
    var s := "</div>" + rest;
    assert s[0] == '<' && s[1] == '/' && s[2] == 'd' && s[3] == 'i' && s[4] == 'v' && s[5] == '>';
    assert s[5..][0] == '>';
  }

  lemma KidsHead(ds: seq<Div>, rest: string)
    requires rest != "" && rest[0] == '<'
    ensures KidsTo(ds, rest) != "" && KidsTo(ds, rest)[0] == '<'
  {
  }

  /** The length of what is printed before `rest`. */
  function DivLength(d: Div): nat
    decreases d, 1
  {
    5 + |d.attrs| + |d.text| + KidsLength(d.kids) + 6 + |d.after|
  }

  function KidsLength(ds: seq<Div>): nat
    decreases ds, 0
  {
    if ds == [] then 0 else DivLength(ds[0]) + KidsLength(ds[1..])
  }

  /** At any depth, a well-nested div is read up to its own closing tag. */
  lemma {:induction false} CloseAfterOpen(d: Div, rest: string, depth: int)
    requires DivOk(d) && depth >= 0
    ensures var tail := d.after + rest;
            CloseFrom(DivTo(d, rest), depth)
            == DivLength(d) - |d.after| + if depth == 0 then 0 else CloseFrom(tail, depth)
    decreases d, 1
  {
    var close := "</div>" + (d.after + rest);
    var inside := KidsTo(d.kids, close);
    OpenTag(d.attrs, d.text + inside);
    KidsHead(d.kids, close);
    CloseInert(d.text, inside, depth + 1);
    CloseKids(d.kids, close, depth + 1);
    CloseTag(d.after + rest);
  }

  lemma {:induction false} CloseKids(ds: seq<Div>, rest: string, depth: int)
    requires KidsOk(ds) && depth > 0 && rest != "" && rest[0] == '<'
    ensures CloseFrom(KidsTo(ds, rest), depth) == KidsLength(ds) + CloseFrom(rest, depth)
    decreases ds, 0
  {
    if ds != [] {
      var behind := KidsTo(ds[1..], rest);
      KidsHead(ds[1..], rest);
      CloseAfterOpen(ds[0], behind, depth);
      CloseInert(ds[0].after, behind, depth);
      CloseKids(ds[1..], rest, depth);
    }
  }

  lemma {:induction false} DivThen(d: Div, a: string, b: string)
    ensures DivTo(d, a) + b == DivTo(d, a + b)
    decreases d, 1
  {
    var close := "</div>" + (d.after + a);
    Regroup(d.after, a, b);
    Regroup("</div>", d.after + a, b);
    KidsThen(d.kids, close, b);
    Regroup(d.text, KidsTo(d.kids, close), b);
    Regroup(">", d.text + KidsTo(d.kids, close), b);
    Regroup(d.attrs, ">" + (d.text + KidsTo(d.kids, close)), b);
    Regroup("<div", d.attrs + (">" + (d.text + KidsTo(d.kids, close))), b);
  }

  lemma {:induction false} KidsThen(ds: seq<Div>, a: string, b: string)
    ensures KidsTo(ds, a) + b == KidsTo(ds, a + b)
    decreases ds, 0
  {
    if ds != [] {
      KidsThen(ds[1..], a, b);
      DivThen(ds[0], KidsTo(ds[1..], a), b);
    }
  }

  lemma {:induction false} DivSize(d: Div, rest: string)
    ensures |DivTo(d, rest)| == DivLength(d) + |rest|
    decreases d, 1
  {
    KidsSize(d.kids, "</div>" + (d.after + rest));
  }

  lemma {:induction false} KidsSize(ds: seq<Div>, rest: string)
    ensures |KidsTo(ds, rest)| == KidsLength(ds) + |rest|
    decreases ds, 0
  {
    if ds != [] {
      KidsSize(ds[1..], rest);
      DivSize(ds[0], KidsTo(ds[1..], rest));
    }
  }

  /** `matchDivClose` finds the end of any well-nested div, whatever is inside it and behind it. */
  lemma MatchFindsTheClose(d: Div, rest: string)
    requires DivOk(d) && d.after == ""
    ensures CloseFrom(DivTo(d, rest), 0) == |DivTo(d, "")|
    ensures DivTo(d, rest) == DivTo(d, "") + rest
  {
    CloseAfterOpen(d, rest, 0);
    DivSize(d, "");
    DivThen(d, "", rest);
    assert "" + rest == rest;
  }

  // ------------------------------------------------------ one question, one answer

  datatype Faq = Faq(q: string, a: string)

  const SPAN := "<span"
  const ICON := SPAN + (" class=\"e-faq__icon icon-add\">" + "</span>")
  const LIST := "class=\"e-faq__list"
  const HEAD := "class=\"e-faq__head\""
  const BODY := "class=\"e-faq__body\""
  const HEAD_MARK := HEAD + ">"
  const PARA := "<p>"
  const PARA_END := "</p>"

  function ListAttrs(active: bool): string {
    " " + (LIST + (if active then " is--active\"" else "\""))
  }

  function BodyAttrs(active: bool): string {
    " " + (BODY + (if active then " style=\"display: block;\"" else ""))
  }

  /** The white space inside an item. */
  datatype Layout = Layout(listIn: string, headOut: string, bodyIn: string, bodyEnd: string, bodyOut: string)

  const PRINTED := Layout("\n" + "      ", "\n" + "      ", "\n" + "        ", "\n" + "      ", "\n" + "    ")
  const TIGHT := Layout("", "", "", "", "")

  function HeadDiv(w: Layout, q: string): Div {
    Div(" " + HEAD, q + ICON, [], w.headOut)
  }

  function BodyDiv(active: bool, w: Layout, a: string): Div {
    Div(BodyAttrs(active), w.bodyIn + (PARA + (a + (PARA_END + w.bodyEnd))), [], w.bodyOut)
  }

  function ItemDiv(active: bool, w: Layout, f: Faq): Div {
    Div(ListAttrs(active), w.listIn, [HeadDiv(w, f.q), BodyDiv(active, w, f.a)], "")
  }

  /** `canonicalFaqItemHtml`. */
  function CanonicalFaqItemHtml(q: string, a: string): string {
    "<div class=\"e-faq__list\">" + ("<div class=\"e-faq__head\">" + (q + (ICON + ("</div>"
    + ("<div class=\"e-faq__body\"><p>" + (a + ("</p></div>" + "</div>")))))))
  }

  /** `isFaqItemAtom`. */
  predicate IsFaqItemAtom(token: string) {
    "<div class=\"e-faq__list\">" <= token && Contains(token, HEAD)
    && |token| >= 6 && token[|token| - 6..] == "</div>"
  }

  function OrEmpty(s: Option<string>): string {
    if s.Some? then s.value else ""
  }

  /** `parseFaqItemHtml`. */
  function ParseFaqItemHtml(itemHtml: string): Faq {
    Faq(OrEmpty(Between(itemHtml, HEAD_MARK, SPAN)), OrEmpty(Between(itemHtml, PARA, PARA_END)))
  }

  /** White space as the printer uses it. */
  predicate Blank(ws: string) {
    forall i :: 0 <= i < |ws| ==> ws[i] == '\n' || ws[i] == ' '
  }

  predicate LayoutOk(w: Layout) {
    Blank(w.listIn) && Blank(w.headOut) && Blank(w.bodyIn) && Blank(w.bodyEnd) && Blank(w.bodyOut)
  }

  /** No div tag, and none of the tags the item reader looks for. */
  predicate Readable(f: Faq) {
    && Inert(f.q) && !Contains(f.q, SPAN) && !Contains(f.q, PARA)
    && Inert(f.a) && !Contains(f.a, PARA_END)
  }

  // ------------------------------------------------------------ reading an item

  lemma SkipListAttrs(active: bool, y: string)
    ensures From(ListAttrs(active) + y, HEAD_MARK) == From(y, HEAD_MARK)
  {
    var tail := if active then " is--active\"" else "\"";
    Regroup(" ", LIST + tail, y);
    Regroup(LIST, tail, y);
    SkipPiece(" ", LIST + (tail + y), HEAD_MARK, 0);
    SkipPiece(LIST, tail + y, HEAD_MARK, 14);
    if active {
      SkipActive(y);
    } else {
      SkipPiece("\"", y, HEAD_MARK, 0);
    }
  }

  lemma SkipActive(y: string)
    ensures From(" is--active\"" + y, HEAD_MARK) == From(y, HEAD_MARK)
  {
    assert " is--active\"" == " is--a" + "ctive\"";
    Regroup(" is--a", "ctive\"", y);
    SkipPiece(" is--a", "ctive\"" + y, HEAD_MARK, 0);
    SkipPiece("ctive\"", y, HEAD_MARK, 1);
  }

  lemma HeadFound(active: bool, ws: string, z: string)
    requires Blank(ws)
    ensures From("<div" + (ListAttrs(active) + (">" + (ws + ("<div" + ((" " + HEAD) + (">" + z)))))), HEAD_MARK)
            == Some(HEAD_MARK + z)
  {
    var t5 := (" " + HEAD) + (">" + z);
    var t4 := "<div" + t5;
    var t3 := ws + t4;
    var t2 := ">" + t3;
    var t1 := ListAttrs(active) + t2;
    SkipPiece("<div", t1, HEAD_MARK, 0);
    SkipListAttrs(active, t2);
    SkipPiece(">", t3, HEAD_MARK, 0);
    SkipText(ws, t4, HEAD_MARK);
    SkipPiece("<div", t5, HEAD_MARK, 0);
    Regroup(" ", HEAD, ">" + z);
    SkipPiece(" ", HEAD + (">" + z), HEAD_MARK, 0);
    Regroup(HEAD, ">", z);
    FoundHere(HEAD_MARK, z);
  }

  predicate Plain(t: string) {
    '<' !in t && '>' !in t
  }

  lemma PlainHasNoTag(t: string)
    requires Plain(t)
    ensures '<' !in t
  {
  }

  lemma PlainJoin(a: string, b: string)
    requires Plain(a) && Plain(b)
    ensures Plain(a + b)
  {
  }

  lemma ListAttrsPlain(active: bool)
    ensures Plain(ListAttrs(active)) && AttrsOk(ListAttrs(active))
  {
    var tail := if active then " is--active\"" else "\"";
    PlainJoin(LIST, tail);
    PlainJoin(" ", LIST + tail);
  }

  lemma BodyAttrsPlain(active: bool)
    ensures Plain(BodyAttrs(active)) && AttrsOk(BodyAttrs(active))
  {
    var tail := if active then " style=\"display: block;\"" else "";
    PlainJoin(BODY, tail);
    PlainJoin(" ", BODY + tail);
  }

  lemma HeadAttrsPlain()
    ensures Plain(" " + HEAD) && AttrsOk(" " + HEAD)
  {
    PlainJoin(" ", HEAD);
  }

  lemma LeafTo(d: Div, rest: string)
    requires d.kids == []
    ensures DivTo(d, rest) == "<div" + (d.attrs + (">" + (d.text + ("</div>" + (d.after + rest)))))
  {
  }

  lemma SkipOpenTag(attrs: string, y: string, pat: string)
    requires '<' !in attrs && |pat| >= 2 && pat[0] == '<' && pat[1] != 'd'
    ensures From("<div" + (attrs + (">" + y)), pat) == From(y, pat)
  {
    SkipPiece("<div", attrs + (">" + y), pat, 1);
    SkipText(attrs, ">" + y, pat);
    SkipText(">", y, pat);
  }

  lemma SkipIcon(y: string)
    ensures From(ICON + y, PARA) == From(y, PARA)
  {
    var tag := " class=\"e-faq__icon icon-add\">";
    Regroup(SPAN, tag + "</span>", y);
    Regroup(tag, "</span>", y);
    SkipPiece(SPAN, tag + ("</span>" + y), PARA, 1);
    SkipText(tag, "</span>" + y, PARA);
    SkipPiece("</span>", y, PARA, 1);
  }

  lemma SkipHead(w: Layout, q: string, y: string)
    requires Blank(w.headOut) && !Contains(q, PARA)
    ensures From(DivTo(HeadDiv(w, q), y), PARA) == From(y, PARA)
  {
    HeadAttrsPlain();
    var tail := "</div>" + (w.headOut + y);
    LeafTo(HeadDiv(w, q), y);
    SkipOpenTag(" " + HEAD, (q + ICON) + tail, PARA);
    Regroup(q, ICON, tail);
    SkipFree(q, ICON + tail, PARA);
    SkipIcon(tail);
    SkipPiece("</div>", w.headOut + y, PARA, 1);
    SkipText(w.headOut, y, PARA);
  }

  lemma ParagraphFound(active: bool, w: Layout, q: string, z: string)
    requires LayoutOk(w) && !Contains(q, PARA)
    ensures From("<div" + (ListAttrs(active) + (">" + (w.listIn
                   + DivTo(HeadDiv(w, q), "<div" + (BodyAttrs(active) + (">" + (w.bodyIn + (PARA + z)))))))),
                 PARA) == Some(PARA + z)
  {
    ListAttrsPlain(active);
    BodyAttrsPlain(active);
    var body := w.bodyIn + (PARA + z);
    var t3 := "<div" + (BodyAttrs(active) + (">" + body));
    var head := DivTo(HeadDiv(w, q), t3);
    SkipOpenTag(ListAttrs(active), w.listIn + head, PARA);
    SkipText(w.listIn, head, PARA);
    SkipHead(w, q, t3);
    SkipOpenTag(BodyAttrs(active), body, PARA);
    SkipText(w.bodyIn, PARA + z, PARA);
    FoundHere(PARA, z);
  }

  lemma ItemTo(active: bool, w: Layout, f: Faq, rest: string)
    ensures DivTo(ItemDiv(active, w, f), rest)
            == "<div" + (ListAttrs(active) + (">" + (w.listIn
               + DivTo(HeadDiv(w, f.q), DivTo(BodyDiv(active, w, f.a), "</div>" + ("" + rest))))))
  {
    var kids := [HeadDiv(w, f.q), BodyDiv(active, w, f.a)];
    var end := "</div>" + ("" + rest);
    assert kids[1..] == [BodyDiv(active, w, f.a)] && kids[1..][1..] == [];
    assert KidsTo(kids[1..][1..], end) == end;
    assert KidsTo(kids[1..], end) == DivTo(BodyDiv(active, w, f.a), end);
  }

  /** The question is what the reader takes out of the head, exactly when no span begins in it. */
  lemma QuestionIsRead(active: bool, w: Layout, f: Faq, rest: string)
    requires LayoutOk(w)
    ensures Between(DivTo(ItemDiv(active, w, f), rest), HEAD_MARK, SPAN) == Some(f.q) <==> !Contains(f.q, SPAN)
  {
    var behind := DivTo(BodyDiv(active, w, f.a), "</div>" + ("" + rest));
    var tail := "</div>" + (w.headOut + behind);
    ItemTo(active, w, f, rest);
    LeafTo(HeadDiv(w, f.q), behind);
    HeadFound(active, w.listIn, (f.q + ICON) + tail);
    FoundHere(HEAD_MARK, (f.q + ICON) + tail);
    var icon := " class=\"e-faq__icon icon-add\">" + "</span>";
    Regroup(f.q, ICON, tail);
    Regroup(SPAN, icon, tail);
    if Contains(f.q, SPAN) {
      EarlierHit(f.q, SPAN + (icon + tail), SPAN);
    } else {
      BeforeFree(f.q, SPAN, icon + tail);
    }
  }

  lemma {:induction false} EarlierHit(x: string, y: string, pat: string)
    requires Contains(x, pat) && pat != ""
    ensures Contains(x + y, pat) && |Before(x + y, pat)| < |x|
  {
    if pat <= x {
      assert pat <= x + y;
    } else {
      assert (x + y)[1..] == x[1..] + y;
      EarlierHit(x[1..], y, pat);
    }
  }

  /** A hit in `x` is a hit at the same place in a longer text. */
  lemma {:induction false} FoundAhead(x: string, y: string, pat: string)
    requires Contains(x, pat) && pat != ""
    ensures From(x + y, pat) == Some(From(x, pat).value + y)
    ensures pat <= From(x, pat).value && |From(x, pat).value| <= |x|
    ensures Before(x + y, pat) == Before(x, pat)
  {
    if pat <= x {
      assert pat <= x + y;
    } else {
      assert (x + y)[1..] == x[1..] + y;
      FoundAhead(x[1..], y, pat);
    }
    var n := |x| - |From(x, pat).value|;
    assert (x + y)[..n] == x[..n];
  }

  /** What stands before the first `pat` does not hold it. */
  lemma {:induction false} BeforeIsFree(s: string, pat: string)
    requires Contains(s, pat) && pat != ""
    ensures |From(s, pat).value| <= |s| && Before(s, pat) <= s && !Contains(Before(s, pat), pat)
  {
    if !(pat <= s) {
      BeforeIsFree(s[1..], pat);
      assert Before(s, pat) == [s[0]] + Before(s[1..], pat);
      assert Before(s, pat)[1..] == Before(s[1..], pat);
    }
  }

  /** The item behind its question, `z` being what follows the tag that opens the answer. */
  function BehindQuestion(active: bool, w: Layout, z: string): string {
    ICON + ("</div>" + (w.headOut + ("<div" + (BodyAttrs(active) + (">" + (w.bodyIn + (PARA + z)))))))
  }

  lemma BeginsWithIcon(active: bool, w: Layout, z: string)
    ensures var t := BehindQuestion(active, w, z); t != "" && t[0] == '<'
  {
  }

  lemma SkipToQuestion(active: bool, w: Layout, q: string, z: string)
    requires LayoutOk(w)
    ensures From("<div" + (ListAttrs(active) + (">" + (w.listIn
                   + DivTo(HeadDiv(w, q), "<div" + (BodyAttrs(active) + (">" + (w.bodyIn + (PARA + z)))))))), PARA)
            == From(q + BehindQuestion(active, w, z), PARA)
  {
    ListAttrsPlain(active);
    HeadAttrsPlain();
    var body := "<div" + (BodyAttrs(active) + (">" + (w.bodyIn + (PARA + z))));
    var head := DivTo(HeadDiv(w, q), body);
    var tail := "</div>" + (w.headOut + body);
    SkipOpenTag(ListAttrs(active), w.listIn + head, PARA);
    SkipText(w.listIn, head, PARA);
    LeafTo(HeadDiv(w, q), body);
    SkipOpenTag(" " + HEAD, (q + ICON) + tail, PARA);
    Regroup(q, ICON, tail);
  }

  /** No closing paragraph tag between the question and the answer. */
  lemma SkipToAnswer(active: bool, w: Layout, z: string)
    requires LayoutOk(w)
    ensures From(BehindQuestion(active, w, z), PARA_END) == From(z, PARA_END)
    ensures |BehindQuestion(active, w, z)| > |z|
  {
    hide From, Plain, BodyAttrs;
    BodyAttrsPlain(active);
    PlainHasNoTag(BodyAttrs(active));
    var t4 := w.bodyIn + (PARA + z);
    var t3 := "<div" + (BodyAttrs(active) + (">" + t4));
    var t2 := "</div>" + (w.headOut + t3);
    var tag := " class=\"e-faq__icon icon-add\">";
    Regroup(SPAN, tag + "</span>", t2);
    Regroup(tag, "</span>", t2);
    SkipPiece(SPAN, tag + ("</span>" + t2), PARA_END, 1);
    SkipText(tag, "</span>" + t2, PARA_END);
    SkipPiece("</span>", t2, PARA_END, 2);
    SkipPiece("</div>", w.headOut + t3, PARA_END, 2);
    SkipText(w.headOut, t3, PARA_END);
    SkipOpenTag(BodyAttrs(active), t4, PARA_END);
    SkipText(w.bodyIn, PARA + z, PARA_END);
    SkipPiece(PARA, z, PARA_END, 1);
  }

  /** With a paragraph in the question, the group begins there. */
  lemma GroupInQuestion(active: bool, w: Layout, f: Faq, y: string)
    requires LayoutOk(w) && Contains(f.q, PARA)
    ensures var s := f.q + BehindQuestion(active, w, f.a + (PARA_END + y));
            Between(s, PARA, PARA_END) == Some(f.a) <==> Between(f.q, PARA, PARA_END) == Some(f.a)
  {
    hide BehindQuestion, From, Before;
    var z := f.a + (PARA_END + y);
    var t := BehindQuestion(active, w, z);
    FoundAhead(f.q, t, PARA);
    var hit := From(f.q, PARA).value;
    var u := hit[|PARA|..];
    DropAhead(hit, t, |PARA|);
    if Contains(u, PARA_END) {
      FoundAhead(u, t, PARA_END);
    } else {
      BeginsWithIcon(active, w, z);
      SkipFree(u, t, PARA_END);
      SkipToAnswer(active, w, z);
      GroupIsNotAnswer(u + t, f.a, y);
    }
  }

  /** A group that ends at or behind the answer's end, and begins before the answer, is not the answer. */
  lemma GroupIsNotAnswer(s: string, a: string, y: string)
    requires From(s, PARA_END) == From(a + (PARA_END + y), PARA_END) && |s| > |a + (PARA_END + y)|
    ensures Contains(s, PARA_END) && Before(s, PARA_END) != a
  {
    hide From;
    if Contains(a, PARA_END) {
      FoundAhead(a, PARA_END + y, PARA_END);
      BeforeIsFree(s, PARA_END);
    } else {
      SkipFree(a, PARA_END + y, PARA_END);
      FoundHere(PARA_END, y);
    }
  }

  /**
    The answer is what the reader takes out of the paragraph, exactly when it holds no
    closing tag and no paragraph in the question is read in its place.
  */
  lemma AnswerIsRead(active: bool, w: Layout, f: Faq, rest: string)
    requires LayoutOk(w)
    ensures Between(DivTo(ItemDiv(active, w, f), rest), PARA, PARA_END) == Some(f.a)
            <==> !Contains(f.a, PARA_END)
                 && (!Contains(f.q, PARA) || Between(f.q, PARA, PARA_END) == Some(f.a))
  {
    hide From, Before, BehindQuestion;
    var end := "</div>" + ("" + rest);
    var tail := "</div>" + (w.bodyOut + end);
    var body := BodyDiv(active, w, f.a);
    var y := w.bodyEnd + tail;
    ItemTo(active, w, f, rest);
    LeafTo(body, end);
    AnswerText(w, f.a, tail);
    var z := f.a + (PARA_END + y);
    if Contains(f.q, PARA) {
      SkipToQuestion(active, w, f.q, z);
      GroupInQuestion(active, w, f, y);
      if Between(f.q, PARA, PARA_END) == Some(f.a) {
        BeforeIsFree(From(f.q, PARA).value[|PARA|..], PARA_END);
      }
    } else {
      ParagraphFound(active, w, f.q, z);
      FoundHere(PARA, z);
      if Contains(f.a, PARA_END) {
        EarlierHit(f.a, PARA_END + y, PARA_END);
      } else {
        BeforeFree(f.a, PARA_END, y);
      }
    }
  }

  lemma AnswerText(w: Layout, a: string, tail: string)
    ensures (w.bodyIn + (PARA + (a + (PARA_END + w.bodyEnd)))) + tail
            == w.bodyIn + (PARA + (a + (PARA_END + (w.bodyEnd + tail))))
  {
    var inner := PARA_END + w.bodyEnd;
    Regroup(w.bodyIn, PARA + (a + inner), tail);
    Regroup(PARA, a + inner, tail);
    Regroup(a, inner, tail);
    Regroup(PARA_END, w.bodyEnd, tail);
  }

  /** Whatever the position, the styling and the white space, an item reads back as its pair. */
  lemma ItemIsRead(active: bool, w: Layout, f: Faq, rest: string)
    requires LayoutOk(w) && Readable(f)
    ensures ParseFaqItemHtml(DivTo(ItemDiv(active, w, f), rest)) == f
  {
    QuestionIsRead(active, w, f, rest);
    AnswerIsRead(active, w, f, rest);
  }

  // ----------------------------------------------------------- canonical atoms

  /** The canonical text is the item without styling and without white space. */
  lemma CanonicalIsItem(q: string, a: string)
    ensures CanonicalFaqItemHtml(q, a) == DivTo(ItemDiv(false, TIGHT, Faq(q, a)), "")
  {
    var f := Faq(q, a);
    var end := "</div>" + ("" + "");
    var body := DivTo(BodyDiv(false, TIGHT, a), end);
    ItemTo(false, TIGHT, f, "");
    LeafTo(HeadDiv(TIGHT, q), body);
    LeafTo(BodyDiv(false, TIGHT, a), end);
    CanonicalBody(a);
    CanonicalHead(q, body);
    assert "" + DivTo(HeadDiv(TIGHT, q), body) == DivTo(HeadDiv(TIGHT, q), body);
    ListOpening();
    Regroup4("<div", ListAttrs(false), ">", DivTo(HeadDiv(TIGHT, q), body));
  }

  lemma ListOpening()
    ensures "<div" + (ListAttrs(false) + ">") == "<div class=\"e-faq__list\">"
  {
  }

  lemma HeadOpening()
    ensures "<div" + ((" " + HEAD) + ">") == "<div class=\"e-faq__head\">"
  {
  }

  lemma BodyOpening()
    ensures "<div" + (BodyAttrs(false) + (">" + PARA)) == "<div class=\"e-faq__body\"><p>"
  {
  }

  lemma BodyClosing()
    ensures PARA_END + ("</div>" + ("" + ("</div>" + ("" + "")))) == "</p></div>" + "</div>"
  {
  }

  /** Four pieces, grouped from the left or from the right. */
  lemma Regroup4(a: string, b: string, c: string, d: string)
    ensures (a + (b + c)) + d == a + (b + (c + d))
  {
    Regroup(a, b + c, d);
    Regroup(b, c, d);
  }

  lemma CanonicalBody(a: string)
    ensures DivTo(BodyDiv(false, TIGHT, a), "</div>" + ("" + ""))
            == "<div class=\"e-faq__body\"><p>" + (a + ("</p></div>" + "</div>"))
  {
    var end := "</div>" + ("" + "");
    LeafTo(BodyDiv(false, TIGHT, a), end);
    var tail := "</div>" + ("" + end);
    BodyClosing();
    BodyOpening();
    BodyText(a, tail);
    Regroup4("<div", BodyAttrs(false), ">" + PARA, a + (PARA_END + tail));
    Regroup(">", PARA, a + (PARA_END + tail));
  }

  lemma BodyText(a: string, tail: string)
    ensures BodyDiv(false, TIGHT, a).text + tail == PARA + (a + (PARA_END + tail))
  {
    var x := a + (PARA_END + "");
    assert PARA_END + "" == PARA_END && "" + (PARA + x) == PARA + x;
    Regroup(PARA, x, tail);
    Regroup(a, PARA_END, tail);
  }

  lemma CanonicalHead(q: string, body: string)
    ensures DivTo(HeadDiv(TIGHT, q), body)
            == "<div class=\"e-faq__head\">" + (q + (ICON + ("</div>" + body)))
  {
    LeafTo(HeadDiv(TIGHT, q), body);
    assert "" + body == body;
    Regroup(q, ICON, "</div>" + body);
    HeadOpening();
    Regroup4("<div", " " + HEAD, ">", q + (ICON + ("</div>" + body)));
  }

  /** An atom reads back as the pair it was made from. */
  lemma AtomIsRead(f: Faq)
    ensures !Contains(f.q, SPAN) <==> ParseFaqItemHtml(CanonicalFaqItemHtml(f.q, f.a)).q == f.q
    ensures Readable(f) ==> ParseFaqItemHtml(CanonicalFaqItemHtml(f.q, f.a)) == f
  {
    CanonicalIsItem(f.q, f.a);
    QuestionIsRead(false, TIGHT, f, "");
    if Readable(f) {
      ItemIsRead(false, TIGHT, f, "");
    }
  }

  /** Every atom the tokenizer makes is recognised as one, whatever its texts. */
  lemma AtomIsRecognised(q: string, a: string)
    ensures IsFaqItemAtom(CanonicalFaqItemHtml(q, a))
  {
    var t := CanonicalFaqItemHtml(q, a);
    CanonicalIsItem(q, a);
    var body := DivTo(BodyDiv(false, TIGHT, a), "</div>" + ("" + ""));
    ItemTo(false, TIGHT, Faq(q, a), "");
    LeafTo(HeadDiv(TIGHT, q), body);
    var z := (q + ICON) + ("</div>" + ("" + body));
    HeadFound(false, "", z);
    MarkHoldsHead(t);
    LastSix("<div class=\"e-faq__list\">", "<div class=\"e-faq__head\">", q,
            ICON + ("</div>" + "<div class=\"e-faq__body\"><p>"), a, "</p></div>");
  }

  lemma {:induction false} MarkHoldsHead(t: string)
    requires Contains(t, HEAD_MARK)
    ensures Contains(t, HEAD)
  {
    if HEAD_MARK <= t {
      assert HEAD <= HEAD_MARK;
    } else {
      MarkHoldsHead(t[1..]);
    }
  }

  lemma LastSix(a: string, b: string, c: string, d: string, e: string, f: string)
    ensures var s := a + (b + (c + (d + (e + (f + "</div>"))))); s[|s| - 6..] == "</div>"
  {
  }

  // ------------------------------------------------------- cutting up a region

  const ITEM := "<div" + (" " + LIST)

  /** Length of the div tag that `s` begins with. */
  function OpenAt(s: string): (n: Option<nat>)
    ensures n.Some? ==> 0 < n.value <= |s|
  {
    if !("<div" <= s) || (|s| > 4 && IsWord(s[4])) then None
    else match BehindGt(s[4..]) case None => None case Some(n) => Some(4 + n)
  }

  function AtomOf(item: string): string {
    var f := ParseFaqItemHtml(item);
    CanonicalFaqItemHtml(f.q, f.a)
  }

  /** `indexOf` from position `i` on, with -1 for absent. */
  function IndexOf(s: string, pat: string, i: nat): (k: int)
    requires i <= |s|
    ensures k < 0 || i <= k <= |s|
    ensures k >= 0 ==> pat <= s[k..]
    decreases |s| - i
  {
    if pat <= s[i..] then i else if i == |s| then -1 else IndexOf(s, pat, i + 1)
  }

  /** What `atom` makes of each stretch, from `cursor` on, that begins with `open` and ends where its div does. */
  function ItemsFrom(region: string, cursor: nat, open: string, atom: string -> string): seq<string>
    requires cursor <= |region|
    decreases |region| - cursor
  {
    var start := IndexOf(region, open, cursor);
    if start < 0 || start == |region| then []
    else
      var end := EndFrom(region, start, 0);
      [atom(region[start..end])] + ItemsFrom(region, end, open, atom)
  }

  datatype Wrapper = Wrapper(faqOpen: nat, wrapIdx: nat, wrapOpen: nat)

  /** The region's two opening tags: the length of the first, position and length of the second. */
  function WrapperOf(region: string): (w: Option<Wrapper>)
    ensures w.Some? ==> Fits(w.value, region)
  {
    var faqOpen := OpenAt(region);
    if faqOpen.None? then None
    else
      var wrapIdx := IndexOf(region, "<div", faqOpen.value);
      var wrapOpen := if wrapIdx >= 0 then OpenAt(region[wrapIdx..]) else None;
      if wrapOpen.None? then None else Some(Wrapper(faqOpen.value, wrapIdx, wrapOpen.value))
  }

  predicate Fits(w: Wrapper, region: string) {
    w.faqOpen <= |region| && w.wrapIdx + w.wrapOpen <= |region|
  }

  function WrapperTokens(region: string, w: Wrapper, open: string, atom: string -> string): seq<string>
    requires Fits(w, region)
  {
    var cursor := w.wrapIdx + w.wrapOpen;
    [region[..w.faqOpen], region[w.wrapIdx..cursor]] + ItemsFrom(region, cursor, open, atom) + ["</div>", "</div>"]
  }

  /** The tokens of a region; `atom` makes a token of each item's text. */
  function RegionTokens(region: string, atom: string -> string): seq<string> {
    match WrapperOf(region)
    case None => [region]
    case Some(w) => WrapperTokens(region, w, ITEM, atom)
  }

  /** `pushFaqRegionTokens`: the tokens go onto the end of `out`. */
  method PushFaqRegionTokens(region: string, atom: string -> string, pushed: seq<string>) returns (out: seq<string>)
    ensures out == pushed + RegionTokens(region, atom)
  {
    var w := WrapperOf(region);
    if w.None? {
      out := pushed + [region];
    } else {
      out := PushWrapper(region, w.value, ITEM, atom, pushed);
    }
  }

  method PushWrapper(region: string, w: Wrapper, open: string, atom: string -> string, pushed: seq<string>)
    returns (out: seq<string>)
    requires Fits(w, region) && open != ""
    ensures out == pushed + WrapperTokens(region, w, open, atom)
  {
    var cursor := w.wrapIdx + w.wrapOpen;
    var tag, wrap := region[..w.faqOpen], region[w.wrapIdx..cursor];
    out := pushed;
    out := out + [tag];
    out := out + [wrap];
    out := PushItems(region, cursor, open, atom, out);
    out := out + ["</div>"];
    out := out + ["</div>"];
    RegroupRegion(pushed, tag, wrap, ItemsFrom(region, cursor, open, atom), "</div>");
  }

  lemma RegroupRegion(pushed: seq<string>, tag: string, wrap: string, items: seq<string>, close: string)
    ensures ((((pushed + [tag]) + [wrap]) + items) + [close]) + [close]
            == pushed + ([tag, wrap] + items + [close, close])
  {
  }

  /** The item loop of `pushFaqRegionTokens`. */
  method PushItems(region: string, first: nat, open: string, atom: string -> string, pushed: seq<string>)
    returns (out: seq<string>)
    requires first <= |region| && open != ""
    ensures out == pushed + ItemsFrom(region, first, open, atom)
  {
    out := pushed;
    var cursor := first;
    while true
      invariant cursor <= |region|
      invariant out + ItemsFrom(region, cursor, open, atom) == pushed + ItemsFrom(region, first, open, atom)
      decreases |region| - cursor
    {
      var start := IndexOf(region, open, cursor);
      if start < 0 {
        break;
      }
      var end := MatchDivClose(region, start);
      Regroup(out, [atom(region[start..end])], ItemsFrom(region, end, open, atom));
      out := out + [atom(region[start..end])];
      cursor := end;
    }
  }

  // --------------------------------------------- the same, read from the text

  /** The same stretches, of a text read from its beginning. */
  function Items(s: string, open: string, atom: string -> string): seq<string>
    decreases |s|
  {
    match From(s, open)
    case None => []
    case Some(t) =>
      if t == "" then []
      else
        var n := CloseFrom(t, 0);
        [atom(t[..n])] + Items(t[n..], open, atom)
  }

  lemma {:induction false} IndexIsFrom(s: string, pat: string, i: nat)
    requires i <= |s|
    ensures var k := IndexOf(s, pat, i);
            From(s[i..], pat) == if k < 0 then None else Some(s[k..])
    decreases |s| - i
  {
    if !(pat <= s[i..]) && i < |s| {
      assert s[i..][1..] == s[i + 1..];
      IndexIsFrom(s, pat, i + 1);
    }
  }

  lemma Slices(s: string, i: nat, n: nat)
    requires i + n <= |s|
    ensures s[i..][..n] == s[i..i + n] && s[i..][n..] == s[i + n..]
  {
  }

  lemma ItemsHit(s: string, t: string, open: string, atom: string -> string)
    requires From(s, open) == Some(t) && t != ""
    ensures Items(s, open, atom) == [atom(t[..CloseFrom(t, 0)])] + Items(t[CloseFrom(t, 0)..], open, atom)
  {
  }

  lemma ItemsFromHit(region: string, cursor: nat, start: nat, open: string, atom: string -> string)
    requires cursor <= |region| && IndexOf(region, open, cursor) == start < |region|
    ensures var end := EndFrom(region, start, 0);
            ItemsFrom(region, cursor, open, atom) == [atom(region[start..end])] + ItemsFrom(region, end, open, atom)
  {
  }

  lemma EndSlices(region: string, start: nat)
    requires start < |region|
    ensures var t, end := region[start..], EndFrom(region, start, 0);
            start < end && t[..CloseFrom(t, 0)] == region[start..end] && t[CloseFrom(t, 0)..] == region[end..]
  {
    EndIsClose(region, start, 0);
    Slices(region, start, CloseFrom(region[start..], 0));
  }

  lemma {:induction false} ItemsAreFrom(region: string, cursor: nat, open: string, atom: string -> string)
    requires cursor <= |region|
    ensures ItemsFrom(region, cursor, open, atom) == Items(region[cursor..], open, atom)
    decreases |region| - cursor
  {
    IndexIsFrom(region, open, cursor);
    var start := IndexOf(region, open, cursor);
    if 0 <= start < |region| {
      ItemsFromHit(region, cursor, start, open, atom);
      ItemsHit(region[cursor..], region[start..], open, atom);
      EndSlices(region, start);
      ItemsAreFrom(region, EndFrom(region, start, 0), open, atom);
    }
  }

  // ---------------------------------------------------------------- printing

  const FAQ_OPEN := "<div" + (" class=\"editor__item editor__faq\"" + ">")
  const WRAP_OPEN := "<div" + (" class=\"e-faq__wrap\"" + ">")

  /** The six lines of one item. */
  function ItemLines(active: bool, f: Faq): seq<string> {
    ["    " + ("<div" + (ListAttrs(active) + ">")),
     "      " + ("<div" + ((" " + HEAD) + (">" + (f.q + (ICON + "</div>"))))),
     "      " + ("<div" + (BodyAttrs(active) + ">")),
     "        " + (PARA + (f.a + PARA_END)),
     "      " + "</div>",
     "    " + "</div>"]
  }

  /** The lines of the items from number `i` on. */
  function LinesOf(items: seq<Faq>, i: nat): seq<string>
    requires i <= |items|
    decreases |items| - i
  {
    if i == |items| then [] else ItemLines(i == 0, items[i]) + LinesOf(items, i + 1)
  }

  const ENDING := ["  " + "</div>", "</div>"]

  /** Each line after a newline, and then `rest`. */
  function LinesTo(lines: seq<string>, rest: string): string {
    if lines == [] then rest else "\n" + (lines[0] + LinesTo(lines[1..], rest))
  }

  /** `"\n".join(lines)`. */
  function Join(lines: seq<string>): string {
    if lines == [] then "" else lines[0] + LinesTo(lines[1..], "")
  }

  function Widget(items: seq<Faq>): string {
    if items == [] then "" else Join([FAQ_OPEN, "  " + WRAP_OPEN] + LinesOf(items, 0) + ENDING)
  }

  lemma LinesStep(parts: seq<string>, items: seq<Faq>, i: nat)
    requires i < |items|
    ensures (parts + ItemLines(i == 0, items[i])) + LinesOf(items, i + 1) == parts + LinesOf(items, i)
  {
    var lines := ItemLines(i == 0, items[i]);
    assert LinesOf(items, i) == lines + LinesOf(items, i + 1);
    Regroup(parts, lines, LinesOf(items, i + 1));
  }

  /** `_build_faq_html`. */
  method BuildFaqHtml(items: seq<Faq>) returns (html: string)
    ensures html == Widget(items)
  {
    if items == [] {
      return "";
    }
    var parts := [FAQ_OPEN, "  " + WRAP_OPEN];
    ghost var all := parts + LinesOf(items, 0);
    for i := 0 to |items|
      invariant parts + LinesOf(items, i) == all
    {
      LinesStep(parts, items, i);
      parts := parts + ItemLines(i == 0, items[i]);
    }
    assert parts + LinesOf(items, |items|) == parts;
    parts := parts + ENDING;
    html := Join(parts);
  }

  lemma {:induction false} LinesThen(a: seq<string>, b: seq<string>, rest: string)
    ensures LinesTo(a + b, rest) == LinesTo(a, LinesTo(b, rest))
  {
    if a == [] {
      assert a + b == b;
    } else {
      assert (a + b)[1..] == a[1..] + b;
      LinesThen(a[1..], b, rest);
    }
  }

  lemma OpeningLine(indent: string, attrs: string, inside: string, rest: string)
    ensures "\n" + ((indent + ("<div" + (attrs + (">" + inside)))) + rest)
            == ("\n" + indent) + ("<div" + (attrs + (">" + (inside + rest))))
  {
    Regroup(indent, "<div" + (attrs + (">" + inside)), rest);
    Regroup("<div", attrs + (">" + inside), rest);
    Regroup(attrs, ">" + inside, rest);
    Regroup(">", inside, rest);
    Regroup("\n", indent, "<div" + (attrs + (">" + (inside + rest))));
  }

  lemma ClosingLine(indent: string, rest: string)
    ensures "\n" + ((indent + "</div>") + rest) == ("\n" + indent) + ("</div>" + rest)
  {
    Regroup(indent, "</div>", rest);
    Regroup("\n", indent, "</div>" + rest);
  }

  lemma ParagraphLine(indent: string, a: string, rest: string)
    ensures "\n" + ((indent + (PARA + (a + PARA_END))) + rest) == ("\n" + indent) + (PARA + (a + (PARA_END + rest)))
  {
    Regroup(indent, PARA + (a + PARA_END), rest);
    Regroup(PARA, a + PARA_END, rest);
    Regroup(a, PARA_END, rest);
    Regroup("\n", indent, PARA + (a + (PARA_END + rest)));
  }

  lemma {:induction false} SixLines(a: string, b: string, c: string, d: string, e: string, f: string, rest: string)
    ensures LinesTo([a, b, c, d, e, f], rest)
            == "\n" + (a + ("\n" + (b + ("\n" + (c + ("\n" + (d + ("\n" + (e + ("\n" + (f + rest)))))))))))
  {
    assert [a, b, c, d, e, f] == [a, b, c] + [d, e, f];
    LinesThen([a, b, c], [d, e, f], rest);
    ThreeLines(d, e, f, rest);
    ThreeLines(a, b, c, LinesTo([d, e, f], rest));
  }

  lemma ThreeLines(a: string, b: string, c: string, rest: string)
    ensures LinesTo([a, b, c], rest) == "\n" + (a + ("\n" + (b + ("\n" + (c + rest)))))
  {
    assert [a, b, c][1..] == [b, c] && [b, c][1..] == [c] && [c][1..] == [];
    assert LinesTo([c], rest) == "\n" + (c + rest);
    assert LinesTo([b, c], rest) == "\n" + (b + LinesTo([c], rest));
  }

  lemma OpenLine(indent: string, attrs: string, rest: string)
    ensures "\n" + ((indent + ("<div" + (attrs + ">"))) + rest) == ("\n" + indent) + ("<div" + (attrs + (">" + rest)))
  {
    Regroup(indent, "<div" + (attrs + ">"), rest);
    Regroup4("<div", attrs, ">", rest);
    Regroup("\n", indent, "<div" + (attrs + (">" + rest)));
  }

  /** The head line, with the body `b` behind it. */
  lemma HeadLine(q: string, b: string)
    ensures "\n" + (("      " + ("<div" + ((" " + HEAD) + (">" + (q + (ICON + "</div>")))))) + (PRINTED.headOut + b))
            == ("\n" + "      ") + DivTo(HeadDiv(PRINTED, q), b)
  {
    var rest := PRINTED.headOut + b;
    OpeningLine("      ", " " + HEAD, q + (ICON + "</div>"), rest);
    Regroup4(q, ICON, "</div>", rest);
    Regroup(q, ICON, "</div>" + rest);
    LeafTo(HeadDiv(PRINTED, q), b);
  }

  /** The body's three lines, with `end` behind them. */
  lemma BodyLines(active: bool, a: string, end: string)
    ensures "\n" + (("      " + ("<div" + (BodyAttrs(active) + ">")))
            + ("\n" + (("        " + (PARA + (a + PARA_END)))
            + ("\n" + (("      " + "</div>") + (PRINTED.bodyOut + end))))))
            == ("\n" + "      ") + DivTo(BodyDiv(active, PRINTED, a), end)
  {
    var x6 := PRINTED.bodyOut + end;
    var t := "</div>" + x6;
    var x5 := PRINTED.bodyEnd + t;
    ClosingLine("      ", x6);
    ParagraphLine("        ", a, x5);
    var x4 := PRINTED.bodyIn + (PARA + (a + (PARA_END + x5)));
    OpenLine("      ", BodyAttrs(active), x4);
    LeafTo(BodyDiv(active, PRINTED, a), end);
    Regroup(PRINTED.bodyIn, PARA + (a + (PARA_END + PRINTED.bodyEnd)), t);
    Regroup(PARA, a + (PARA_END + PRINTED.bodyEnd), t);
    Regroup4(a, PARA_END, PRINTED.bodyEnd, t);
  }

  /** The six lines are the item, styled and laid out, behind its own line break. */
  lemma ItemLinesAreTheItem(active: bool, f: Faq, rest: string)
    ensures LinesTo(ItemLines(active, f), rest) == ("\n" + "    ") + DivTo(ItemDiv(active, PRINTED, f), rest)
  {
    var lines := ItemLines(active, f);
    SixLines(lines[0], lines[1], lines[2], lines[3], lines[4], lines[5], rest);
    var end := "</div>" + ("" + rest);
    assert "" + rest == rest;
    ClosingLine("    ", rest);
    BodyLines(active, f.a, end);
    var body := DivTo(BodyDiv(active, PRINTED, f.a), end);
    HeadLine(f.q, body);
    OpenLine("    ", ListAttrs(active), ("\n" + "      ") + DivTo(HeadDiv(PRINTED, f.q), body));
    ItemTo(active, PRINTED, f, rest);
  }

  lemma {:induction false} InertBefore(x: string, y: string)
    requires Inert(x) && Inert(y) && y != "" && y[0] == '<'
    ensures Inert(x + y)
  {
    if x == "" {
      assert x + y == y;
    } else {
      assert (x + y)[1..] == x[1..] + y;
      NoDivAhead(x, y);
      InertBefore(x[1..], y);
    }
  }

  lemma {:induction false} InertBehind(x: string, y: string)
    requires '<' !in x && Inert(y)
    ensures Inert(x + y)
  {
    if x == "" {
      assert x + y == y;
    } else {
      assert (x + y)[1..] == x[1..] + y;
      assert (x + y)[0] == x[0] && x[0] in x;
      InertBehind(x[1..], y);
    }
  }

  /** A tag that is no div, `c` being the first letter of its name. */
  lemma InertTag(c: char, name: string, y: string)
    requires '<' !in name && c != '<' && c != '/' && c != 'd' && c != 'D' && Inert(y)
    ensures Inert("<" + ([c] + (name + y)))
  {
    InertBehind(name, y);
    var z := [c] + (name + y);
    assert z[1..] == name + y && z[0] == c;
    assert ("<" + z)[1..] == z && ("<" + z)[1] == c;
  }

  lemma InertEndTag(c: char, name: string, y: string)
    requires '<' !in name && c != '<' && c != 'd' && c != 'D' && Inert(y)
    ensures Inert("<" + ("/" + ([c] + (name + y))))
  {
    InertBehind(name, y);
    var z := [c] + (name + y);
    assert z[1..] == name + y && z[0] == c;
    var slash := "/" + z;
    assert slash[1..] == z && slash[0] == '/' && slash[1] == c;
    var s := "<" + slash;
    assert s[1..] == slash && s[1] == '/' && s[2] == c;
    assert !DivAt(s, 1) && !DivAt(s, 2);
  }

  lemma IconEndIsInert()
    ensures Inert("</span>")
  {
    assert "pan>" + "" == "pan>";
    InertEndTag('s', "pan>", "");
    assert "<" + ("/" + (['s'] + "pan>")) == "</span>";
  }

  lemma IconIsInert()
    ensures Inert(ICON) && ICON != "" && ICON[0] == '<'
  {
    var tag := "pan class=\"e-faq__icon icon-add\">";
    IconEndIsInert();
    InertTag('s', tag, "</span>");
    IconParts(tag);
  }

  lemma IconParts(tag: string)
    requires tag == "pan class=\"e-faq__icon icon-add\">"
    ensures "<" + (['s'] + (tag + "</span>")) == ICON
  {
    assert "<" + (['s'] + "pan") == SPAN;
    var t := " class=\"e-faq__icon icon-add\">";
    assert tag == "pan" + t;
    Regroup("pan", t, "</span>");
    Regroup(['s'], "pan", t + "</span>");
    Regroup("<", ['s'] + "pan", t + "</span>");
  }

  lemma ParagraphIsInert(a: string, ws: string)
    requires Inert(a) && Blank(ws)
    ensures Inert(PARA + (a + (PARA_END + ws)))
  {
    assert ws + "" == ws;
    InertBehind(ws, "");
    InertEndTag('p', ">", ws);
    assert "<" + ("/" + (['p'] + (">" + ws))) == PARA_END + ws;
    InertBefore(a, PARA_END + ws);
    InertTag('p', ">", a + (PARA_END + ws));
    assert "<" + (['p'] + (">" + (a + (PARA_END + ws)))) == PARA + (a + (PARA_END + ws));
  }

  lemma BlankIsInert(ws: string)
    requires Blank(ws)
    ensures Inert(ws)
  {
    InertBehind(ws, "");
    assert ws + "" == ws;
  }

  lemma ItemIsOk(active: bool, w: Layout, f: Faq)
    requires LayoutOk(w) && Readable(f)
    ensures DivOk(ItemDiv(active, w, f))
  {
    ListAttrsPlain(active);
    HeadAttrsPlain();
    BodyAttrsPlain(active);
    IconIsInert();
    InertBefore(f.q, ICON);
    ParagraphIsInert(f.a, w.bodyEnd);
    InertBehind(w.bodyIn, PARA + (f.a + (PARA_END + w.bodyEnd)));
    BlankIsInert(w.listIn);
    BlankIsInert(w.headOut);
    BlankIsInert(w.bodyOut);
    var head, body := HeadDiv(w, f.q), BodyDiv(active, w, f.a);
    assert DivOk(head) && DivOk(body);
    TwoKids(head, body);
  }

  lemma TwoKids(a: Div, b: Div)
    requires DivOk(a) && DivOk(b)
    ensures KidsOk([a, b])
  {
    assert [a, b][1..] == [b] && [b][1..] == [];
    assert KidsOk([b]);
  }

  // ------------------------------------------- printing, then cutting it up

  /** The atom depends on the pair alone, not on styling, position or white space. */
  lemma AtomIgnoresStyling(active: bool, w: Layout, f: Faq)
    requires LayoutOk(w) && Readable(f)
    ensures AtomOf(DivTo(ItemDiv(active, w, f), "")) == CanonicalFaqItemHtml(f.q, f.a)
  {
    ItemIsRead(active, w, f, "");
  }

  function Atoms(items: seq<Faq>, i: nat): seq<string>
    requires i <= |items|
    decreases |items| - i
  {
    if i == |items| then [] else [CanonicalFaqItemHtml(items[i].q, items[i].a)] + Atoms(items, i + 1)
  }

  lemma ItemBegins(active: bool, f: Faq, rest: string)
    ensures ITEM <= DivTo(ItemDiv(active, PRINTED, f), rest)
  {
    var tail := if active then " is--active\"" else "\"";
    ItemTo(active, PRINTED, f, rest);
    var body := DivTo(BodyDiv(active, PRINTED, f.a), "</div>" + ("" + rest));
    var x := ">" + (PRINTED.listIn + DivTo(HeadDiv(PRINTED, f.q), body));
    Regroup(" ", LIST, tail);
    Regroup(" " + LIST, tail, x);
    Regroup("<div", " " + LIST, tail + x);
  }

  lemma EndingHoldsNoItem()
    ensures From(LinesTo(ENDING, ""), ITEM) == None
  {
    assert ENDING[1..] == ["</div>"] && ["</div>"][1..] == [];
    var last := "\n" + ("</div>" + "");
    assert LinesTo(["</div>"], "") == last;
    assert LinesTo(ENDING, "") == "\n" + (("  " + "</div>") + last);
    ClosingLine("  ", last);
    SkipText("\n" + "  ", "</div>" + last, ITEM);
    SkipPiece("</div>", last, ITEM, 1);
    SkipText("\n", "</div>" + "", ITEM);
    SkipPiece("</div>", "", ITEM, 1);
  }

  /** One printed item is cut off as one atom. */
  lemma FirstItem(active: bool, f: Faq, rest: string)
    requires Readable(f)
    ensures Items(("\n" + "    ") + DivTo(ItemDiv(active, PRINTED, f), rest), ITEM, AtomOf)
            == [CanonicalFaqItemHtml(f.q, f.a)] + Items(rest, ITEM, AtomOf)
  {
    var d := ItemDiv(active, PRINTED, f);
    var t := DivTo(d, rest);
    ItemIsOk(active, PRINTED, f);
    MatchFindsTheClose(d, rest);
    ItemBegins(active, f, rest);
    SkipText("\n" + "    ", t, ITEM);
    ItemsHit(("\n" + "    ") + t, t, ITEM, AtomOf);
    CutAt(DivTo(d, ""), rest);
    AtomIgnoresStyling(active, PRINTED, f);
  }

  lemma CutAt(a: string, b: string)
    ensures (a + b)[..|a|] == a && (a + b)[|a|..] == b
  {
  }

  lemma FirstLines(active: bool, f: Faq, rest: string)
    requires Readable(f)
    ensures Items(LinesTo(ItemLines(active, f), rest), ITEM, AtomOf)
            == [CanonicalFaqItemHtml(f.q, f.a)] + Items(rest, ITEM, AtomOf)
  {
    ItemLinesAreTheItem(active, f, rest);
    FirstItem(active, f, rest);
  }

  /** `cut` takes the item's lines off as one atom. */
  ghost predicate CutsOff(cut: string -> seq<string>, active: bool, f: Faq, rest: string) {
    Readable(f) ==> cut(LinesTo(ItemLines(active, f), rest)) == [CanonicalFaqItemHtml(f.q, f.a)] + cut(rest)
  }

  lemma {:induction false} LinesAreCut(items: seq<Faq>, i: nat, ending: string, cut: string -> seq<string>)
    requires i <= |items| && forall j :: 0 <= j < |items| ==> Readable(items[j])
    requires cut(ending) == [] && forall active, f, rest :: CutsOff(cut, active, f, rest)
    ensures cut(LinesTo(LinesOf(items, i), ending)) == Atoms(items, i)
    decreases |items| - i
  {
    hide ItemLines, CanonicalFaqItemHtml, Readable;
    if i < |items| {
      var rest := LinesTo(LinesOf(items, i + 1), ending);
      LinesAreCut(items, i + 1, ending, cut);
      assert CutsOff(cut, i == 0, items[i], rest);
      SplitLines(items, i, ending);
    }
  }

  lemma ItemsOfLines(items: seq<Faq>)
    requires forall j :: 0 <= j < |items| ==> Readable(items[j])
    ensures Items(LinesTo(LinesOf(items, 0), LinesTo(ENDING, "")), ITEM, AtomOf) == Atoms(items, 0)
  {
    var cut := s => Items(s, ITEM, AtomOf);
    EndingHoldsNoItem();
    forall active, f, rest
      ensures CutsOff(cut, active, f, rest)
    {
      if Readable(f) {
        FirstLines(active, f, rest);
      }
    }
    LinesAreCut(items, 0, LinesTo(ENDING, ""), cut);
  }

  lemma SplitLines(items: seq<Faq>, i: nat, ending: string)
    requires i < |items|
    ensures LinesTo(LinesOf(items, i), ending)
            == LinesTo(ItemLines(i == 0, items[i]), LinesTo(LinesOf(items, i + 1), ending))
  {
    LinesThen(ItemLines(i == 0, items[i]), LinesOf(items, i + 1), ending);
  }

  lemma OpenAtTag(attrs: string, rest: string)
    requires AttrsOk(attrs)
    ensures OpenAt(("<div" + (attrs + ">")) + rest) == Some(5 + |attrs|)
    ensures (("<div" + (attrs + ">")) + rest)[5 + |attrs|..] == rest
  {
    Regroup4("<div", attrs, ">", rest);
    var tail := attrs + (">" + rest);
    var s := "<div" + tail;
    assert s[4] == tail[0] && s[4..] == tail;
    BehindAttrs(attrs, rest);
    assert tail[|attrs| + 1..] == rest;
  }

  lemma OpenersOk()
    ensures AttrsOk(" class=\"editor__item editor__faq\"") && AttrsOk(" class=\"e-faq__wrap\"")
  {
  }

  /** The wrapper's markup around the items' text. */
  function Wrapped(body: string): string {
    FAQ_OPEN + (("\n" + "  ") + (WRAP_OPEN + body))
  }

  /** The two opening tags, the atoms, and the two closing tags. */
  function Bracketed(atoms: seq<string>): seq<string> {
    [FAQ_OPEN, WRAP_OPEN] + atoms + ["</div>", "</div>"]
  }

  /** The two opening tags of a printed widget are found where they stand. */
  lemma WrapperFound(body: string)
    ensures var region := Wrapped(body);
            var w := WrapperOf(region);
            && w.Some?
            && region[..w.value.faqOpen] == FAQ_OPEN
            && region[w.value.wrapIdx..w.value.wrapIdx + w.value.wrapOpen] == WRAP_OPEN
            && region[w.value.wrapIdx + w.value.wrapOpen..] == body
  {
    OpenersOk();
    var wrap := WRAP_OPEN + body;
    var tail := ("\n" + "  ") + wrap;
    var region := FAQ_OPEN + tail;
    OpenAtTag(" class=\"editor__item editor__faq\"", tail);
    OpenAtTag(" class=\"e-faq__wrap\"", body);
    CutAt(FAQ_OPEN, tail);
    CutAt(WRAP_OPEN, body);
    SkipText("\n" + "  ", wrap, "<div");
    Regroup("<div", " class=\"e-faq__wrap\"" + ">", body);
    FoundHere("<div", (" class=\"e-faq__wrap\"" + ">") + body);
    IndexIsFrom(region, "<div", |FAQ_OPEN|);
    var k := IndexOf(region, "<div", |FAQ_OPEN|);
    Slices(region, k, |WRAP_OPEN|);
  }

  lemma WidgetText(items: seq<Faq>)
    requires items != []
    ensures Widget(items) == Wrapped(LinesTo(LinesOf(items, 0), LinesTo(ENDING, "")))
  {
    var lines := [FAQ_OPEN, "  " + WRAP_OPEN] + LinesOf(items, 0) + ENDING;
    var rest := LinesOf(items, 0) + ENDING;
    assert lines[0] == FAQ_OPEN && lines[1..] == ["  " + WRAP_OPEN] + rest;
    LinesThen(["  " + WRAP_OPEN], rest, "");
    LinesThen(LinesOf(items, 0), ENDING, "");
    var body := LinesTo(rest, "");
    assert ["  " + WRAP_OPEN][1..] == [];
    assert LinesTo(["  " + WRAP_OPEN], body) == "\n" + (("  " + WRAP_OPEN) + body);
    Regroup("  ", WRAP_OPEN, body);
    Regroup("\n", "  ", WRAP_OPEN + body);
  }

  lemma TokensOfRegion(region: string, body: string, atoms: seq<string>, atom: string -> string)
    requires region == Wrapped(body) && Items(body, ITEM, atom) == atoms
    ensures RegionTokens(region, atom) == Bracketed(atoms)
  {
    WrapperFound(body);
    var w := WrapperOf(region).value;
    ItemsAreFrom(region, w.wrapIdx + w.wrapOpen, ITEM, atom);
    TokensOfWrapper(region, w, FAQ_OPEN, WRAP_OPEN, atoms, ITEM, atom);
  }

  lemma TokensOfWrapper(region: string, w: Wrapper, faqTag: string, wrapTag: string, tokens: seq<string>,
                        open: string, atom: string -> string)
    requires Fits(w, region)
    requires region[..w.faqOpen] == faqTag && region[w.wrapIdx..w.wrapIdx + w.wrapOpen] == wrapTag
    requires ItemsFrom(region, w.wrapIdx + w.wrapOpen, open, atom) == tokens
    ensures WrapperTokens(region, w, open, atom) == [faqTag, wrapTag] + tokens + ["</div>", "</div>"]
  {
  }

  /**
    Cutting up a printed widget gives the two opening tags, one canonical atom for each
    pair in order, and the two closing tags.
  */
  lemma WidgetIsCutIntoAtoms(items: seq<Faq>)
    requires items != [] && forall i :: 0 <= i < |items| ==> Readable(items[i])
    ensures RegionTokens(Widget(items), AtomOf) == Bracketed(Atoms(items, 0))
  {
    hide *;
    ItemsOfLines(items);
    WidgetText(items);
    TokensOfRegion(Widget(items), LinesTo(LinesOf(items, 0), LinesTo(ENDING, "")), Atoms(items, 0), AtomOf);
  }

  lemma {:induction false} AtomAt(items: seq<Faq>, i: nat, k: nat)
    requires i <= k < |items|
    ensures k - i < |Atoms(items, i)| && Atoms(items, i)[k - i] == CanonicalFaqItemHtml(items[k].q, items[k].a)
    decreases |items| - i
  {
    if i < k {
      AtomAt(items, i + 1, k);
    }
  }

  /** ... and reading the atoms gives the pairs back. */
  lemma AtomsAreRead(items: seq<Faq>, k: nat)
    requires k < |items| && Readable(items[k])
    ensures k < |Atoms(items, 0)| && ParseFaqItemHtml(Atoms(items, 0)[k]) == items[k]
  {
    AtomAt(items, 0, k);
    AtomIsRead(items[k]);
  }

  // ------------------------------------------------------ what text qualifies

  predicate IsLetter(c: char) {
    'a' <= c <= 'z' || 'A' <= c <= 'Z'
  }

  /** No `<` in front of a letter or a slash: no tag begins or ends. */
  predicate MarkupFree(t: string) {
    forall i :: 0 <= i < |t| - 1 && t[i] == '<' ==> !IsLetter(t[i + 1]) && t[i + 1] != '/'
  }

  lemma {:induction false} MarkupFreeIsInert(t: string)
    requires MarkupFree(t)
    ensures Inert(t)
  {
    if t != "" {
      MarkupFreeIsInert(t[1..]);
    }
  }

  lemma {:induction false} MarkupFreeHoldsNoTag(t: string, pat: string)
    requires MarkupFree(t) && |pat| >= 2 && pat[0] == '<' && (IsLetter(pat[1]) || pat[1] == '/')
    ensures !Contains(t, pat)
  {
    if t != "" {
      MarkupFreeHoldsNoTag(t[1..], pat);
      assert |t| >= 2 && t[0] == '<' ==> t[1] != pat[1];
    }
  }

  /** Text without markup qualifies; a bare `<` is no markup. */
  lemma MarkupFreeIsReadable(q: string, a: string)
    requires MarkupFree(q) && MarkupFree(a)
    ensures Readable(Faq(q, a))
  {
    MarkupFreeIsInert(q);
    MarkupFreeIsInert(a);
    MarkupFreeHoldsNoTag(q, SPAN);
    MarkupFreeHoldsNoTag(q, PARA);
    MarkupFreeHoldsNoTag(a, PARA_END);
  }
}
