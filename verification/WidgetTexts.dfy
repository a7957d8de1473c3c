/**
  The accordion's texts as they stand (content_tool/agents/render_html.py and
  web/lib/faq-diff.ts): what is printed, what is found in a text, which tags are counted,
  and what a region of any markup is cut into.
*/
module WidgetTexts {
  import opened Wrappers
  import opened Seqs
  import opened FaqWidget

  // --------------------------------------------------------------- searching

  predicate Stands(s: string, pat: string, i: nat) {
    i + |pat| <= |s| && s[i..i + |pat|] == pat
  }

  ghost predicate FirstAt(s: string, pat: string, i: nat) {
    Stands(s, pat, i) && forall j: nat :: j < i ==> !Stands(s, pat, j)
  }

  ghost predicate Absent(s: string, pat: string) {
    forall j: nat :: !Stands(s, pat, j)
  }

  lemma StandsBehind(s: string, pat: string, i: nat)
    requires s != ""
    ensures Stands(s[1..], pat, i) <==> Stands(s, pat, i + 1)
  {
    if i + 1 + |pat| <= |s| {
      assert s[1..][i..i + |pat|] == s[i + 1..i + 1 + |pat|];
    }
  }

  /** A search ends at the first place where the pattern stands. */
  lemma {:induction false} FirstIsFound(s: string, pat: string, i: nat)
    requires FirstAt(s, pat, i)
    ensures From(s, pat) == Some(s[i..]) && Before(s, pat) == s[..i]
  {
    if i > 0 {
      assert !Stands(s, pat, 0);
      StandsBehind(s, pat, i - 1);
      forall j: nat | j < i - 1
        ensures !Stands(s[1..], pat, j)
      {
        StandsBehind(s, pat, j);
      }
      FirstIsFound(s[1..], pat, i - 1);
    }
  }

  /** ... and it fails exactly when there is no such place. */
  lemma {:induction false} FoundExactly(s: string, pat: string)
    ensures From(s, pat).Some? <==> exists i: nat :: Stands(s, pat, i)
    ensures From(s, pat).Some? ==> exists i: nat :: FirstAt(s, pat, i)
  {
    if pat <= s {
      assert FirstAt(s, pat, 0);
    } else if s != "" {
      assert !Stands(s, pat, 0);
      FoundExactly(s[1..], pat);
      if i: nat :| Stands(s, pat, i) {
        StandsBehind(s, pat, i - 1);
      }
      if i: nat :| FirstAt(s[1..], pat, i) {
        StandsBehind(s, pat, i);
        FirstFollows(s, pat, i);
      }
    }
  }

  lemma FirstFollows(s: string, pat: string, i: nat)
    requires s != "" && !Stands(s, pat, 0) && FirstAt(s[1..], pat, i)
    ensures FirstAt(s, pat, i + 1)
  {
    StandsBehind(s, pat, i);
    forall j: nat | j < i + 1
      ensures !Stands(s, pat, j)
    {
      if j > 0 {
        StandsBehind(s, pat, j - 1);
      }
    }
  }

  /** A group is what stands between the first opening mark and the first closing one behind it. */
  lemma GroupIsRead(s: string, open: string, close: string, i: nat, j: nat)
    requires FirstAt(s, open, i)
    ensures FirstAt(s[i + |open|..], close, j) ==> Between(s, open, close) == Some(s[i + |open|..][..j])
    ensures Absent(s[i + |open|..], close) ==> Between(s, open, close) == None
  {
    FirstIsFound(s, open, i);
    var inner := s[i + |open|..];
    assert s[i..][|open|..] == inner;
    FoundExactly(inner, close);
    if FirstAt(inner, close, j) {
      FirstIsFound(inner, close, j);
    }
  }

  /**
    The question of any text: from behind the head's tag to the next span, and empty without
    either of them.
  */
  lemma QuestionOfAnyText(item: string, i: nat, j: nat)
    ensures Absent(item, "class=\"e-faq__head\">") ==> ParseFaqItemHtml(item).q == ""
    ensures FirstAt(item, "class=\"e-faq__head\">", i) ==>
              && (Absent(item[i + 20..], "<span") ==> ParseFaqItemHtml(item).q == "")
              && (FirstAt(item[i + 20..], "<span", j) ==> ParseFaqItemHtml(item).q == item[i + 20..][..j])
  {
    assert HEAD_MARK == "class=\"e-faq__head\">" && |HEAD_MARK| == 20;
    FoundExactly(item, HEAD_MARK);
    if FirstAt(item, HEAD_MARK, i) {
      GroupIsRead(item, HEAD_MARK, SPAN, i, j);
    }
  }

  /** The answer likewise: the first paragraph. */
  lemma AnswerOfAnyText(item: string, i: nat, j: nat)
    ensures Absent(item, "<p>") ==> ParseFaqItemHtml(item).a == ""
    ensures FirstAt(item, "<p>", i) ==>
              && (Absent(item[i + 3..], "</p>") ==> ParseFaqItemHtml(item).a == "")
              && (FirstAt(item[i + 3..], "</p>", j) ==> ParseFaqItemHtml(item).a == item[i + 3..][..j])
  {
    FoundExactly(item, PARA);
    if FirstAt(item, PARA, i) {
      GroupIsRead(item, PARA, PARA_END, i, j);
    }
  }

  lemma IconText()
    ensures ICON == "<span class=\"e-faq__icon icon-add\"></span>"
  {
  }

  /** The canonical item, written out. */
  lemma CanonicalText(q: string, a: string)
    ensures CanonicalFaqItemHtml(q, a)
            == "<div class=\"e-faq__list\">" + "<div class=\"e-faq__head\">" + q
               + "<span class=\"e-faq__icon icon-add\"></span>" + "</div>"
               + "<div class=\"e-faq__body\"><p>" + a + "</p></div>" + "</div>"
  {
    IconText();
    EightParts("<div class=\"e-faq__list\">", "<div class=\"e-faq__head\">", q,
               "<span class=\"e-faq__icon icon-add\"></span>", "</div>", "<div class=\"e-faq__body\"><p>", a,
               "</p></div>", "</div>");
  }

  lemma EightParts(a: string, b: string, c: string, d: string, e: string, f: string, g: string, h: string, i: string)
    ensures a + (b + (c + (d + (e + (f + (g + (h + i))))))) == a + b + c + d + e + f + g + h + i
  {
  }

  /** A token is taken for an item by its first tag, the head's class somewhere, and its end. */
  lemma RecognisedExactly(token: string)
    ensures IsFaqItemAtom(token) <==>
              && Stands(token, "<div class=\"e-faq__list\">", 0)
              && (exists i: nat :: Stands(token, "class=\"e-faq__head\"", i))
              && |token| >= 6 && Stands(token, "</div>", |token| - 6)
  {
    FoundExactly(token, HEAD);
  }

  // -------------------------------------------------------------------- tags

  const DIV_NAMES := {"div", "diV", "dIv", "dIV", "Div", "DiV", "DIv", "DIV"}

  /** Nothing that would go on with the name. */
  predicate EndsName(t: string) {
    t != "" ==> !('a' <= t[0] <= 'z' || 'A' <= t[0] <= 'Z' || '0' <= t[0] <= '9' || t[0] == '_')
  }

  function TagText(closing: bool, name: string, attrs: string): string {
    (if closing then "</" else "<") + (name + (attrs + ">"))
  }

  predicate IsTag(name: string, attrs: string) {
    name in DIV_NAMES && '>' !in attrs && EndsName(attrs)
  }

  lemma NamesAreDiv(name: string)
    ensures name in DIV_NAMES <==> |name| == 3 && (name[0] == 'd' || name[0] == 'D')
                                   && (name[1] == 'i' || name[1] == 'I') && (name[2] == 'v' || name[2] == 'V')
  {
    if |name| == 3 {
      assert name == [name[0], name[1], name[2]];
    }
  }

  /** Any div tag is read, whatever the case of its name. */
  lemma TagIsRead(closing: bool, name: string, attrs: string, rest: string)
    requires IsTag(name, attrs)
    ensures TagAt(TagText(closing, name, attrs) + rest) == Some(Tag(closing, |TagText(closing, name, attrs)|))
  {
    NamesAreDiv(name);
    var slash := if closing then "</" else "<";
    var tail := attrs + (">" + rest);
    var s := TagText(closing, name, attrs) + rest;
    assert s == slash + (name + tail);
    BehindAttrs(attrs, rest);
    assert s[|slash| + 3..] == tail;
    assert s[|slash|] == name[0] && s[|slash| + 1] == name[1] && s[|slash| + 2] == name[2];
    assert s[|slash| + 3] == tail[0];
  }

  lemma {:induction false} GtIsFirst(s: string)
    requires BehindGt(s).Some?
    ensures var n := BehindGt(s).value; s[n - 1] == '>' && '>' !in s[..n - 1]
  {
    if s[0] != '>' {
      GtIsFirst(s[1..]);
      var n := BehindGt(s).value;
      assert s[..n - 1] == [s[0]] + s[1..][..n - 2];
    }
  }

  /** ... and nothing else is. */
  lemma OnlyTagsAreRead(s: string)
    requires TagAt(s).Some?
    ensures exists name, attrs :: IsTag(name, attrs)
              && s[..TagAt(s).value.length] == TagText(TagAt(s).value.closing, name, attrs)
  {
    var tag := TagAt(s).value;
    var i := if tag.closing then 2 else 1;
    var name, attrs := s[i..i + 3], s[i + 3..tag.length - 1];
    GtIsFirst(s[i + 3..]);
    NamesAreDiv(name);
    assert attrs == s[i + 3..][..tag.length - 1 - (i + 3)];
    assert IsTag(name, attrs);
    assert s[..tag.length] == TagText(tag.closing, name, attrs);
  }

  lemma {:induction false} InertToTheEnd(t: string, depth: int)
    requires Inert(t)
    ensures CloseFrom(t, depth) == |t|
  {
    if t != "" {
      TagIsDiv(t);
      InertToTheEnd(t[1..], depth);
    }
  }

  lemma {:induction false} KidsToTheEnd(ds: seq<Div>, depth: int)
    requires KidsOk(ds) && depth > 0
    ensures CloseFrom(KidsTo(ds, ""), depth) == |KidsTo(ds, "")|
  {
    if ds != [] {
      var behind := KidsTo(ds[1..], "");
      KidsToTheEnd(ds[1..], depth);
      CloseAfterOpen(ds[0], behind, depth);
      DivSize(ds[0], behind);
      if ds[1..] == [] {
        assert ds[0].after + behind == ds[0].after;
        InertToTheEnd(ds[0].after, depth);
      } else {
        BeginsWithTag(ds[1..]);
        CloseInert(ds[0].after, behind, depth);
      }
    }
  }

  lemma BeginsWithTag(ds: seq<Div>)
    requires ds != []
    ensures KidsTo(ds, "") != "" && KidsTo(ds, "")[0] == '<'
  {
  }

  lemma NoKids()
    ensures KidsTo([], "") == ""
  {
  }

  /** A div that is never closed reaches to the end of the text. */
  lemma UnclosedReachesTheEnd(attrs: string, text: string, ds: seq<Div>)
    requires AttrsOk(attrs) && Inert(text) && KidsOk(ds)
    ensures var s := "<div" + (attrs + (">" + (text + KidsTo(ds, "")))); CloseFrom(s, 0) == |s|
  {
    hide KidsTo, Inert, KidsOk, TagAt;
    var inside := KidsTo(ds, "");
    OpenTag(attrs, text + inside);
    KidsToTheEnd(ds, 1);
    if ds == [] {
      NoKids();
      assert text + inside == text;
      InertToTheEnd(text, 1);
    } else {
      BeginsWithTag(ds);
      CloseInert(text, inside, 1);
    }
  }

  // ----------------------------------------------------- a region of any markup

  /** A region that opens with two div tags, with `gap` between them. */
  function Region(a: string, gap: string, b: string, body: string): string {
    ("<div" + (a + ">")) + (gap + (("<div" + (b + ">")) + body))
  }

  ghost predicate OpensTwice(a: string, gap: string, b: string) {
    && '>' !in a && EndsName(a) && '>' !in b && EndsName(b)
    && Absent(gap, "<div")
  }

  lemma SecondTagIsFound(a: string, gap: string, b: string, body: string)
    requires OpensTwice(a, gap, b)
    ensures var tag, wrap := "<div" + (a + ">"), "<div" + (b + ">");
            WrapperOf(Region(a, gap, b, body)) == Some(Wrapper(|tag|, |tag| + |gap|, |wrap|))
  {
    hide From, BehindGt;
    var tag, wrap := "<div" + (a + ">"), "<div" + (b + ">");
    var rest := wrap + body;
    var region := Region(a, gap, b, body);
    OpenAtTag(a, gap + rest);
    OpenAtTag(b, body);
    FoundExactly(gap, "<div");
    Regroup("<div", b + ">", body);
    FoundHere("<div", (b + ">") + body);
    SkipFree(gap, rest, "<div");
    CutAt(tag, gap + rest);
    IndexIsFrom(region, "<div", |tag|);
    var k := IndexOf(region, "<div", |tag|);
    assert region[k..] == rest;
  }

  /** Such a region gives its two tags, what its body is cut into, and two closing tags. */
  lemma RegionIsCut(a: string, gap: string, b: string, body: string, atom: string -> string)
    requires OpensTwice(a, gap, b)
    ensures RegionTokens(Region(a, gap, b, body), atom)
            == ["<div" + (a + ">"), "<div" + (b + ">")]
               + Items(body, "<div class=\"e-faq__list", atom) + ["</div>", "</div>"]
  {
    hide WrapperOf, Items, ItemsFrom, OpensTwice, WrapperTokens, OpenAt;
    var tag, wrap := "<div" + (a + ">"), "<div" + (b + ">");
    var region := Region(a, gap, b, body);
    SecondTagIsFound(a, gap, b, body);
    var w := WrapperOf(region).value;
    CutAt(tag, gap + (wrap + body));
    var c := w.wrapIdx + w.wrapOpen;
    BehindWrap(tag, gap, wrap, body);
    ItemsAreFrom(region, c, ITEM, atom);
    ListTag();
    TokensOfWrapper(region, w, tag, wrap, Items(body, ITEM, atom), ITEM, atom);
  }

  lemma ListTag()
    ensures ITEM == "<div class=\"e-faq__list"
  {
  }

  lemma BehindWrap(tag: string, gap: string, wrap: string, body: string)
    ensures var s, i := tag + (gap + (wrap + body)), |tag| + |gap|;
            s[i..i + |wrap|] == wrap && s[i + |wrap|..] == body
  {
    var s, i := tag + (gap + (wrap + body)), |tag| + |gap|;
    assert s[i..] == wrap + body;
    Slices(s, i, |wrap|);
  }

  lemma OpenTagText(s: string)
    requires OpenAt(s).Some?
    ensures var a := s[4..OpenAt(s).value - 1];
            OpenAt(s).value >= 5 && '>' !in a && EndsName(a) && s[..OpenAt(s).value] == "<div" + (a + ">")
  {
    GtIsFirst(s[4..]);
    var n := OpenAt(s).value;
    assert s[4..n - 1] == s[4..][..n - 5];
    assert s[..4] == "<div" && s[n - 1] == '>';
    assert s[..n] == s[..4] + (s[4..n - 1] + [s[n - 1]]);
  }

  lemma IndexIsFirst(s: string, pat: string, i: nat)
    requires i <= |s| && IndexOf(s, pat, i) >= 0 && pat != ""
    ensures IndexOf(s, pat, i) < |s| && forall j: nat :: !Stands(s[i..IndexOf(s, pat, i)], pat, j)
  {
    var k := IndexOf(s, pat, i);
    forall j: nat
      ensures !Stands(s[i..k], pat, j)
    {
      if Stands(s[i..k], pat, j) {
        assert s[i..k][j..j + |pat|] == s[i + j..i + j + |pat|];
        NoneBefore(s, pat, i, i + j);
      }
    }
  }

  lemma {:induction false} NoneBefore(s: string, pat: string, i: nat, j: nat)
    requires i <= j <= |s| && (IndexOf(s, pat, i) < 0 || j < IndexOf(s, pat, i))
    ensures !(pat <= s[j..])
    decreases j - i
  {
    if i < j {
      NoneBefore(s, pat, i + 1, j);
    }
  }

  /** Any other text stays in one piece. */
  lemma RegionIsKept(region: string, atom: string -> string)
    ensures RegionTokens(region, atom) == [region]
            || exists a, gap, b, body :: OpensTwice(a, gap, b) && region == Region(a, gap, b, body)
  {
    hide Region, OpensTwice;
    if WrapperOf(region).Some? {
      var a, gap, b, body := OpenedTwice(region);
      assert OpensTwice(a, gap, b) && region == Region(a, gap, b, body);
    }
  }

  lemma OpenedTwice(region: string) returns (a: string, gap: string, b: string, body: string)
    requires WrapperOf(region).Some?
    ensures OpensTwice(a, gap, b) && region == Region(a, gap, b, body)
  {
    var w := WrapperOf(region).value;
    OpenTagText(region);
    OpenTagText(region[w.wrapIdx..]);
    IndexIsFirst(region, "<div", w.faqOpen);
    a, b := region[4..w.faqOpen - 1], region[w.wrapIdx..][4..w.wrapOpen - 1];
    gap, body := region[w.faqOpen..w.wrapIdx], region[w.wrapIdx..][w.wrapOpen..];
    FourParts(region, w.faqOpen, w.wrapIdx, w.wrapOpen);
  }

  lemma FourParts(s: string, i: nat, j: nat, n: nat)
    requires i <= j && j + n <= |s|
    ensures s == s[..i] + (s[i..j] + (s[j..][..n] + s[j..][n..]))
  {
  }

  // ------------------------------------------------------------- its items

  /** Text that is no item, and an item behind it. */
  datatype Piece = Piece(front: string, item: Div)

  function PiecesTo(ps: seq<Piece>, rest: string): string {
    if ps == [] then rest else ps[0].front + DivTo(ps[0].item, PiecesTo(ps[1..], rest))
  }

  ghost predicate NoItem(t: string) {
    Absent(t, "<div class=\"e-faq__list")
  }

  /** A well-nested div of the list class. */
  ghost predicate PieceOk(p: Piece) {
    NoItem(p.front) && DivOk(p.item) && p.item.after == "" && " class=\"e-faq__list" <= p.item.attrs
  }

  function AtomsOf(ps: seq<Piece>, atom: string -> string): seq<string> {
    if ps == [] then [] else [atom(DivTo(ps[0].item, ""))] + AtomsOf(ps[1..], atom)
  }

  lemma ListDiv(d: Div, rest: string)
    requires " class=\"e-faq__list" <= d.attrs
    ensures ITEM <= DivTo(d, rest)
  {
    var more := d.attrs[|" class=\"e-faq__list"|..];
    assert d.attrs == " class=\"e-faq__list" + more;
    assert " class=\"e-faq__list" == " " + LIST;
    var tail := ">" + (d.text + KidsTo(d.kids, "</div>" + (d.after + rest)));
    Regroup(" " + LIST, more, tail);
    Regroup("<div", " " + LIST, more + tail);
  }

  lemma NoItemIsFree(p: Piece)
    requires PieceOk(p)
    ensures !Contains(p.front, ITEM) && DivOk(p.item) && p.item.after == "" && " class=\"e-faq__list" <= p.item.attrs
    ensures ITEM != "" && ITEM[0] == '<' && ITEM[0] !in ITEM[1..]
  {
    ListTag();
    FoundExactly(p.front, ITEM);
  }

  lemma BeginsHere(t: string, pat: string)
    requires pat <= t
    ensures From(t, pat) == Some(t)
  {
  }

  lemma ItemIsCut(p: Piece, rest: string, atom: string -> string)
    requires PieceOk(p)
    ensures Items(p.front + DivTo(p.item, rest), ITEM, atom)
            == [atom(DivTo(p.item, ""))] + Items(rest, ITEM, atom)
  {
    var t := DivTo(p.item, rest);
    hide *;
    NoItemIsFree(p);
    ListDiv(p.item, rest);
    BeginsHere(t, ITEM);
    SkipFree(p.front, t, ITEM);
    MatchFindsTheClose(p.item, rest);
    CutAt(DivTo(p.item, ""), rest);
    ItemsHit(p.front + t, t, ITEM, atom);
  }

  lemma {:induction false} PiecesAreCut(ps: seq<Piece>, last: string, atom: string -> string)
    requires (forall p :: p in ps ==> PieceOk(p)) && NoItem(last)
    ensures Items(PiecesTo(ps, last), ITEM, atom) == AtomsOf(ps, atom)
  {
    if ps == [] {
      ListTag();
      FoundExactly(last, ITEM);
    } else {
      PiecesAreCut(ps[1..], last, atom);
      ItemIsCut(ps[0], PiecesTo(ps[1..], last), atom);
    }
  }

  /**
    However a region is indented, styled and filled in between, it is cut into its two tags,
    one token for each item in order, and two closing tags; other text is dropped.
  */
  lemma AnyRegionIsCut(a: string, gap: string, b: string, ps: seq<Piece>, last: string, atom: string -> string)
    requires OpensTwice(a, gap, b) && (forall p :: p in ps ==> PieceOk(p)) && NoItem(last)
    ensures RegionTokens(Region(a, gap, b, PiecesTo(ps, last)), atom)
            == ["<div" + (a + ">"), "<div" + (b + ">")] + AtomsOf(ps, atom) + ["</div>", "</div>"]
  {
    RegionIsCut(a, gap, b, PiecesTo(ps, last), atom);
    ListTag();
    PiecesAreCut(ps, last, atom);
  }

  // ------------------------------------------------------------ what is printed

  /** The lines of one item; the first one is open. */
  function ItemText(first: bool, f: Faq): string {
    "\n" + ((if first then "    <div class=\"e-faq__list is--active\">" else "    <div class=\"e-faq__list\">")
    + ("\n" + (("      <div class=\"e-faq__head\">" + f.q + "<span class=\"e-faq__icon icon-add\"></span></div>")
    + ("\n" + ((if first then "      <div class=\"e-faq__body\" style=\"display: block;\">"
                else "      <div class=\"e-faq__body\">")
    + ("\n" + (("        <p>" + f.a + "</p>") + ("\n" + ("      </div>" + ("\n" + "    </div>"))))))))))
  }

  function ItemTexts(items: seq<Faq>, i: nat): string
    requires i <= |items|
    decreases |items| - i
  {
    if i == |items| then "" else ItemText(i == 0, items[i]) + ItemTexts(items, i + 1)
  }

  lemma HeadTagText()
    ensures "      " + ("<div" + ((" " + HEAD) + ">")) == "      <div class=\"e-faq__head\">"
  {
    HeadOpening();
    assert "      " + "<div class=\"e-faq__head\">" == "      <div class=\"e-faq__head\">";
  }

  lemma IconEndText()
    ensures ICON + "</div>" == "<span class=\"e-faq__icon icon-add\"></span></div>"
  {
    IconText();
  }

  lemma HeadLineText(q: string)
    ensures "      " + ("<div" + ((" " + HEAD) + (">" + (q + (ICON + "</div>")))))
            == "      <div class=\"e-faq__head\">" + q + "<span class=\"e-faq__icon icon-add\"></span></div>"
  {
    hide *;
    HeadTagText();
    IconEndText();
    HeadParts("      ", "<div", " " + HEAD, ">", q, ICON + "</div>");
  }

  lemma HeadParts(a: string, b: string, c: string, d: string, e: string, f: string)
    ensures a + (b + (c + (d + (e + f)))) == (a + (b + (c + d))) + e + f
  {
  }

  lemma ParagraphLineText(a: string)
    ensures "        " + (PARA + (a + PARA_END)) == "        <p>" + a + "</p>"
  {
    assert "        " + PARA == "        <p>";
    Regroup("        ", PARA, a + PARA_END);
    Regroup("        <p>", a, PARA_END);
  }

  lemma ListTagText(first: bool)
    ensures "    " + ("<div" + (ListAttrs(first) + ">"))
            == if first then "    <div class=\"e-faq__list is--active\">" else "    <div class=\"e-faq__list\">"
  {
    if first {
      ActiveTagText();
    } else {
      ListOpening();
      assert "    " + "<div class=\"e-faq__list\">" == "    <div class=\"e-faq__list\">";
    }
  }

  lemma ActiveTagText()
    ensures "    " + ("<div" + (ListAttrs(true) + ">")) == "    <div class=\"e-faq__list is--active\">"
  {
    var head, tail := "    <div class=\"e-faq__list", " is--active\">";
    assert "    " + ("<div" + (" " + LIST)) == head;
    assert " is--active\"" + ">" == tail;
    HeadParts("    ", "<div", " ", LIST, " is--active\"", ">");
    assert ListAttrs(true) == " " + (LIST + " is--active\"");
    TagParts("    ", "<div", " ", LIST, " is--active\"", ">");
  }

  lemma TagParts(a: string, b: string, c: string, d: string, e: string, f: string)
    ensures a + (b + ((c + (d + e)) + f)) == (a + (b + (c + d))) + (e + f)
  {
  }

  lemma BodyHeadText()
    ensures "      " + ("<div" + (" " + BODY)) == "      <div class=\"e-faq__body\""
  {
  }

  lemma BodyTagText(first: bool)
    ensures "      " + ("<div" + (BodyAttrs(first) + ">"))
            == if first then "      <div class=\"e-faq__body\" style=\"display: block;\">"
               else "      <div class=\"e-faq__body\">"
  {
    BodyHeadText();
    var style := if first then " style=\"display: block;\"" else "";
    var head := "      <div class=\"e-faq__body\"";
    TagParts("      ", "<div", " ", BODY, style, ">");
    if first {
      assert style + ">" == " style=\"display: block;\">";
    } else {
      assert style + ">" == ">";
    }
  }

  lemma SixLinesText(first: bool, f: Faq, rest: string)
    ensures LinesTo(ItemLines(first, f), rest) == ItemText(first, f) + rest
  {
    hide LinesTo, ListAttrs, BodyAttrs;
    HeadLineText(f.q);
    ParagraphLineText(f.a);
    ListTagText(first);
    BodyTagText(first);
    assert "      " + "</div>" == "      </div>" && "    " + "</div>" == "    </div>";
    var lines := ItemLines(first, f);
    SixLines(lines[0], lines[1], lines[2], lines[3], lines[4], lines[5], rest);
    Tail(lines, rest);
  }

  lemma Tail(lines: seq<string>, rest: string)
    requires |lines| == 6
    ensures var x := "\n" + (lines[4] + ("\n" + lines[5]));
            var y := "\n" + (lines[2] + ("\n" + (lines[3] + x)));
            var z := "\n" + (lines[0] + ("\n" + (lines[1] + y)));
            z + rest
            == "\n" + (lines[0] + ("\n" + (lines[1] + ("\n" + (lines[2] + ("\n" + (lines[3]
               + ("\n" + (lines[4] + ("\n" + (lines[5] + rest)))))))))))
  {
    var x := "\n" + (lines[4] + ("\n" + lines[5]));
    var y := "\n" + (lines[2] + ("\n" + (lines[3] + x)));
    TwoLines(lines[4], lines[5], "", rest);
    TwoLines(lines[2], lines[3], x, rest);
    TwoLines(lines[0], lines[1], y, rest);
    assert lines[5] + "" == lines[5] && "" + rest == rest;
  }

  lemma TwoLines(a: string, b: string, c: string, rest: string)
    ensures ("\n" + (a + ("\n" + (b + c)))) + rest == "\n" + (a + ("\n" + (b + (c + rest))))
  {
    Regroup("\n", a + ("\n" + (b + c)), rest);
    Regroup(a, "\n" + (b + c), rest);
    Regroup("\n", b + c, rest);
    Regroup(b, c, rest);
  }

  lemma {:induction false} AllLinesText(items: seq<Faq>, i: nat, rest: string)
    requires i <= |items|
    ensures LinesTo(LinesOf(items, i), rest) == ItemTexts(items, i) + rest
    decreases |items| - i
  {
    hide ItemLines, ItemText;
    if i == |items| {
      assert "" + rest == rest;
    } else {
      AllLinesText(items, i + 1, rest);
      LinesThen(ItemLines(i == 0, items[i]), LinesOf(items, i + 1), rest);
      SixLinesText(i == 0, items[i], ItemTexts(items, i + 1) + rest);
      Regroup(ItemText(i == 0, items[i]), ItemTexts(items, i + 1), rest);
    }
  }

  /** The whole widget as it is printed, and nothing for no items. */
  lemma PrintedWidget(items: seq<Faq>)
    ensures items == [] ==> Widget(items) == ""
    ensures items != [] ==>
              Widget(items) == "<div class=\"editor__item editor__faq\">" + ("\n  <div class=\"e-faq__wrap\">"
                               + (ItemTexts(items, 0) + "\n  </div>\n</div>"))
  {
    if items != [] {
      WidgetText(items);
      EndingText();
      AllLinesText(items, 0, LinesTo(ENDING, ""));
      OpeningText(ItemTexts(items, 0) + LinesTo(ENDING, ""));
    }
  }

  lemma EndingText()
    ensures LinesTo(ENDING, "") == "\n  </div>\n</div>"
  {
    assert ENDING[1..] == ["</div>"] && ["</div>"][1..] == [];
    assert LinesTo(["</div>"], "") == "\n" + ("</div>" + "");
    assert LinesTo(ENDING, "") == "\n" + (("  " + "</div>") + LinesTo(["</div>"], ""));
  }

  lemma WrapText()
    ensures ("\n" + "  ") + WRAP_OPEN == "\n  <div class=\"e-faq__wrap\">"
  {
  }

  lemma FaqTagText()
    ensures FAQ_OPEN == "<div class=\"editor__item editor__faq\">"
  {
  }

  lemma OpeningText(body: string)
    ensures Wrapped(body) == "<div class=\"editor__item editor__faq\">" + ("\n  <div class=\"e-faq__wrap\">" + body)
  {
    FaqTagText();
    WrapText();
    Regroup("\n" + "  ", WRAP_OPEN, body);
  }
}
