/**
  The canonical text of a source policy, character by character
  (content_tool/source_policy_store.py), and what its lists hold.
*/
module PolicyText {
  import opened Wrappers
  import opened HexDigits
  import opened PyStr
  import opened Seqs
  import opened Json
  import opened SourcePolicy

  // ------------------------------------------------------- compact JSON text

  const LOWER := "0123456789abcdef"

  /** A character inside a string. */
  function EscapedChar(c: char): string {
    if c == '"' then "\\\""
    else if c == '\\' then "\\\\"
    else if c == '\n' then "\\n"
    else if c == '\r' then "\\r"
    else if c == '\t' then "\\t"
    else if c == '\U{C}' then "\\f"
    else if c == '\U{8}' then "\\b"
    else if c as int < 0x20 then "\\u00" + [LOWER[c as int / 16], LOWER[c as int % 16]]
    else [c]
  }

  function EscapedText(s: string): string {
    if s == "" then "" else EscapedChar(s[0]) + EscapedText(s[1..])
  }

  function Quoted(s: string): string {
    "\"" + (EscapedText(s) + "\"")
  }

  function Joined(texts: seq<string>): string {
    if texts == [] then ""
    else if |texts| == 1 then texts[0]
    else texts[0] + ("," + Joined(texts[1..]))
  }

  /** The value as `json.dumps` writes it with those separators: no blanks anywhere, members
      in their order. */
  function Written(v: Json): string
    requires Writable(v)
    decreases v, 1
  {
    match v
    case Null => "null"
    case Bool(b) => if b then "true" else "false"
    case Num(text) => text
    case Str(s) => Quoted(s)
    case Arr(items) => "[" + (Joined(WrittenItems(items)) + "]")
    case Obj(members) => "{" + (Joined(WrittenMembers(members)) + "}")
  }

  function WrittenItems(items: seq<Json>): (texts: seq<string>)
    requires ItemsWritable(items)
    ensures |texts| == |items|
    decreases items, 0
  {
    if items == [] then [] else [Written(items[0])] + WrittenItems(items[1..])
  }

  function WrittenMembers(ms: Members): (texts: seq<string>)
    requires MembersWritable(ms)
    ensures |texts| == |ms|
    decreases ms, 0
  {
    if ms == [] then [] else [WrittenMember(ms[0])] + WrittenMembers(ms[1..])
  }

  function WrittenMember(m: Member): string
    requires MemberWritable(m)
    decreases m, 1
  {
    Quoted(m.key.s) + (":" + Written(m.value))
  }

  lemma EscapeIsWritten(c: char, rest: string)
    ensures PieceTo(Escape(c), rest) == EscapedChar(c) + rest
  {
    hide HexDigit, PieceTo;
    if IsControl(c) {
      ControlIsWritten(c, rest);
    } else if Escape(c).Short? {
      ShortText(Escape(c).e, rest);
    } else {
      PlainText(c, rest);
    }
  }

  lemma ShortText(e: char, rest: string)
    ensures PieceTo(Short(e), rest) == ['\\', e] + rest
  {
  }

  lemma PlainText(c: char, rest: string)
    ensures PieceTo(Plain(c), rest) == [c] + rest
  {
  }

  /** The control characters without an escape of their own. */
  predicate IsControl(c: char) {
    c as int < 0x20 && c != '\n' && c != '\r' && c != '\t' && c != '\U{C}' && c != '\U{8}'
  }

  lemma ControlIsWritten(c: char, rest: string)
    requires IsControl(c)
    ensures PieceTo(Escape(c), rest) == EscapedChar(c) + rest
  {
    hide HexDigit;
    var h, l := HexDigit(c as int / 16, 'a'), HexDigit(c as int % 16, 'a');
    DigitIsLower(c as int / 16);
    DigitIsLower(c as int % 16);
    assert Escape(c) == Hex(['0', '0', h, l]);
    assert EscapedChar(c) == "\\u00" + [h, l];
    HexPieceText(h, l, rest);
  }

  lemma HexPieceText(h: char, l: char, rest: string)
    ensures PieceTo(Hex(['0', '0', h, l]), rest) == ("\\u00" + [h, l]) + rest
  {
    var d := ['0', '0', h, l];
    assert ("\\u00" + [h, l]) + rest == ['\\'] + (['u'] + (d + rest));
  }

  lemma DigitIsLower(d: int)
    requires 0 <= d < 16
    ensures HexDigit(d, 'a') == LOWER[d]
  {
  }

  lemma {:induction false} EscapesAreWritten(s: string, rest: string)
    ensures PiecesTo(Escapes(s), rest) == EscapedText(s) + rest
  {
    hide Escape, EscapedChar, PieceTo;
    if s != "" {
      assert Escapes(s)[0] == Escape(s[0]) && Escapes(s)[1..] == Escapes(s[1..]);
      EscapesAreWritten(s[1..], rest);
      EscapeIsWritten(s[0], EscapedText(s[1..]) + rest);
      Regroup(EscapedChar(s[0]), EscapedText(s[1..]), rest);
    }
  }

  lemma QuotedIsWritten(s: string, rest: string)
    ensures QuotedTo(Escapes(s), rest) == Quoted(s) + rest
  {
    EscapesAreWritten(s, ['"'] + rest);
    Regroup("\"", EscapedText(s) + "\"", rest);
    Regroup(EscapedText(s), "\"", rest);
  }

  lemma {:induction false} CompactIsWritten(v: Json, rest: string)
    requires Writable(v)
    ensures PrintTo(Compact(v), rest) == Written(v) + rest
    decreases v, 1
  {
    hide Escapes, Quoted, QuotedTo;
    match v
    case Null =>
    case Bool(b) =>
    case Num(text) =>
    case Str(s) =>
      QuotedIsWritten(s, rest);
    case Arr(items) =>
      Regroup("[", Joined(WrittenItems(items)) + "]", rest);
      Regroup(Joined(WrittenItems(items)), "]", rest);
      if items == [] {
        assert "" + ([']'] + rest) == [']'] + rest;
      } else {
        ElemsAreWritten(items, rest);
      }
    case Obj(members) =>
      Regroup("{", Joined(WrittenMembers(members)) + "}", rest);
      Regroup(Joined(WrittenMembers(members)), "}", rest);
      if members != [] {
        EntriesAreWritten(members, rest);
      }
  }

  lemma {:induction false} ElemsAreWritten(items: seq<Json>, rest: string)
    requires items != [] && ItemsWritable(items)
    ensures ElemsTo(CompactElems(items), rest) == Joined(WrittenItems(items)) + ("]" + rest)
    decreases items, 0
  {
    hide Compact, Written, PrintTo;
    var es := CompactElems(items);
    assert es[1..] == CompactElems(items[1..]);
    assert WrittenItems(items)[1..] == WrittenItems(items[1..]);
    if |items| == 1 {
      ElemIsPrinted(es, rest, "]" + rest);
      CompactIsWritten(items[0], "]" + rest);
    } else {
      var more := "," + ElemsTo(es[1..], rest);
      ElemIsPrinted(es, rest, more);
      CompactIsWritten(items[0], more);
      ElemsAreWritten(items[1..], rest);
      Regroup(",", Joined(WrittenItems(items[1..])), "]" + rest);
      Regroup(Written(items[0]), "," + Joined(WrittenItems(items[1..])), "]" + rest);
    }
  }

  /** One element without blanks, in front of `more`. */
  lemma ElemIsPrinted(es: seq<Elem>, rest: string, more: string)
    requires es != [] && es[0].lead == es[0].trail == ""
    requires more == if |es| == 1 then "]" + rest else "," + ElemsTo(es[1..], rest)
    ensures ElemsTo(es, rest) == PrintTo(es[0].value, more)
  {
    hide PrintTo;
    assert "" + more == more && "" + PrintTo(es[0].value, more) == PrintTo(es[0].value, more);
  }

  lemma {:induction false} EntriesAreWritten(ms: Members, rest: string)
    requires ms != [] && MembersWritable(ms)
    ensures EntriesTo(CompactEntries(ms), rest) == Joined(WrittenMembers(ms)) + ("}" + rest)
    decreases ms, 0
  {
    hide Compact, Written, QuotedTo, CompactEntry, WrittenMember;
    var es := CompactEntries(ms);
    assert es[1..] == CompactEntries(ms[1..]);
    assert WrittenMembers(ms)[1..] == WrittenMembers(ms[1..]);
    if |ms| == 1 {
      EntryIsWritten(ms[0], "}" + rest);
      EntryIsPrinted(es, rest, "}" + rest);
    } else {
      var more := "," + EntriesTo(es[1..], rest);
      EntriesAreWritten(ms[1..], rest);
      EntryIsWritten(ms[0], more);
      EntryIsPrinted(es, rest, more);
      Regroup(",", Joined(WrittenMembers(ms[1..])), "}" + rest);
      Regroup(WrittenMember(ms[0]), "," + Joined(WrittenMembers(ms[1..])), "}" + rest);
    }
  }

  /** One entry in front of `more`. */
  function EntryTo(e: Entry, more: string): string {
    e.lead + QuotedTo(e.key, e.afterKey + ([':'] + (e.beforeValue + PrintTo(e.value, e.trail + more))))
  }

  lemma EntryIsPrinted(es: seq<Entry>, rest: string, more: string)
    requires es != [] && more == if |es| == 1 then "}" + rest else "," + EntriesTo(es[1..], rest)
    ensures EntriesTo(es, rest) == EntryTo(es[0], more)
  {
    hide QuotedTo, PrintTo;
  }

  lemma EntryIsWritten(m: Member, more: string)
    requires MemberWritable(m)
    ensures EntryTo(CompactEntry(m), more) == WrittenMember(m) + more
    decreases m, 1
  {
    hide QuotedTo, PrintTo, Compact, Written, Escapes, Quoted;
    assert "" + more == more;
    CompactIsWritten(m.value, more);
    var value := Written(m.value) + more;
    assert "" + ([':'] + ("" + value)) == ":" + value;
    QuotedIsWritten(m.key.s, ":" + value);
    Regroup(":", Written(m.value), more);
    Regroup(Quoted(m.key.s), ":" + Written(m.value), more);
  }

  /** The dumped text, for every value. */
  lemma DumpedText(v: Json)
    requires Writable(v)
    ensures Dumps(v) == Written(v)
  {
    CompactIsWritten(v, "");
    assert Written(v) + "" == Written(v);
  }

  // --------------------------------------------------- the canonical policy

  function QuotedAll(texts: seq<string>): (qs: seq<string>)
    ensures |qs| == |texts| && forall i :: 0 <= i < |texts| ==> qs[i] == Quoted(texts[i])
  {
    seq(|texts|, i requires 0 <= i < |texts| => Quoted(texts[i]))
  }

  function ListText(texts: seq<string>): string {
    "[" + (Joined(QuotedAll(texts)) + "]")
  }

  lemma {:induction false} StringsAreWritten(texts: seq<string>)
    ensures ItemsWritable(Strings(texts)) && WrittenItems(Strings(texts)) == QuotedAll(texts)
  {
    hide Quoted;
    StringsOk(texts);
    if texts != [] {
      assert Strings(texts)[1..] == Strings(texts[1..]) && Strings(texts)[0] == Str(texts[0]);
      StringsAreWritten(texts[1..]);
      assert QuotedAll(texts) == [Quoted(texts[0])] + QuotedAll(texts[1..]);
    }
  }

  /** Two lists under their keys. */
  function PairText(k1: string, xs: seq<string>, k2: string, ys: seq<string>): string {
    "{" + (Joined([Quoted(k1) + (":" + ListText(xs)), Quoted(k2) + (":" + ListText(ys))]) + "}")
  }

  /** A text without quotes, backslashes and controls is quoted as it stands. */
  lemma {:induction false} PlainIsQuoted(key: string)
    requires forall i :: 0 <= i < |key| ==> key[i] != '"' && key[i] != '\\' && key[i] as int >= 0x20
    ensures EscapedText(key) == key && Quoted(key) == "\"" + (key + "\"")
  {
    if key != "" {
      PlainIsQuoted(key[1..]);
    }
  }

  lemma MembersCons(m: Member, ms: Members)
    requires MemberWritable(m) && MembersWritable(ms)
    ensures MembersWritable([m] + ms) && WrittenMembers([m] + ms) == [WrittenMember(m)] + WrittenMembers(ms)
  {
    hide WrittenMember, MemberWritable;
    assert ([m] + ms)[1..] == ms;
  }

  lemma ListMember(key: string, texts: seq<string>)
    ensures var m := Member(Str(key), Arr(Strings(texts)));
            MemberWritable(m) && WrittenMember(m) == Quoted(key) + (":" + ListText(texts))
  {
    hide Joined, QuotedAll, Quoted, Strings;
    StringsAreWritten(texts);
  }

  lemma PairIsWritten(k1: string, xs: seq<string>, k2: string, ys: seq<string>)
    ensures var v := Obj([Member(Str(k1), Arr(Strings(xs))), Member(Str(k2), Arr(Strings(ys)))]);
            Writable(v) && Written(v) == PairText(k1, xs, k2, ys)
  {
    hide Joined, ListText, Quoted, Strings, WrittenMember, MemberWritable, Written;
    var a, b := Member(Str(k1), Arr(Strings(xs))), Member(Str(k2), Arr(Strings(ys)));
    ListMember(k1, xs);
    ListMember(k2, ys);
    NoMembers();
    MembersCons(b, []);
    MembersCons(a, [b]);
    assert [b] + [] == [b] && [a] + [b] == [a, b];
    assert WrittenMembers([b]) == [WrittenMember(b)] + [];
    assert WrittenMembers([a, b]) == [WrittenMember(a)] + WrittenMembers([b]) == [WrittenMember(a), WrittenMember(b)];
    ObjectText([a, b]);
  }

  lemma NoMembers()
    ensures MembersWritable([]) && WrittenMembers([]) == []
  {
  }

  /** What stands in the text for the prompt block. */
  function BlockTexts(raw: Members): seq<string> {
    match Get(raw, "prompt_block")
    case Some(Str(s)) => if Strip(s) != "" then [Quoted("prompt_block") + (":" + Quoted(Strip(s)))] else []
    case _ => []
  }

  lemma ObjectText(ms: Members)
    requires MembersWritable(ms)
    ensures Written(Obj(ms)) == "{" + (Joined(WrittenMembers(ms)) + "}")
  {
  }

  lemma SectionText(raw: Members, section: string, k1: string, k2: string,
                    lower: string -> string, show: Json -> string)
    ensures var m := Member(Str(section), List2(Section(raw, section), k1, k2, lower, show));
            && MemberWritable(m)
            && WrittenMember(m)
               == Quoted(section) + (":" + PairText(k1, CleanedList(Section(raw, section), k1, lower, show),
                                                    k2, CleanedList(Section(raw, section), k2, lower, show)))
  {
    hide CleanedList, PairText, Section, Written, Quoted;
    PairIsWritten(k1, CleanedList(Section(raw, section), k1, lower, show),
                  k2, CleanedList(Section(raw, section), k2, lower, show));
  }

  lemma BlockIsWritten(raw: Members)
    ensures MembersWritable(PromptBlock(raw)) && WrittenMembers(PromptBlock(raw)) == BlockTexts(raw)
  {
    hide Strip, Get, Quoted;
    match Get(raw, PROMPT)
    case Some(Str(s)) =>
      if Strip(s) != "" {
        var m := Member(Str(PROMPT), Str(Strip(s)));
        MembersCons(m, []);
        assert [m] + [] == [m] && [WrittenMember(m)] + [] == [WrittenMember(m)];
      }
    case _ =>
  }

  /**
    The canonical text of any policy: its three sections and their lists under fixed keys
    in fixed order, the prompt block last and only when it is not blank, nothing between.
  */
  lemma CanonicalText(raw: Members, lower: string -> string, show: Json -> string)
    ensures var lists := (section: string, key: string) => CleanedList(Section(raw, section), key, lower, show);
            Canonical(raw, lower, show)
            == "{" + (Joined([
                 Quoted("deny") + (":" + PairText(
                   "domains", lists("deny", "domains"), "tlds", lists("deny", "tlds"))),
                 Quoted("prefer") + (":" + PairText(
                   "tlds", lists("prefer", "tlds"), "domains", lists("prefer", "domains"))),
                 Quoted("community_exception") + (":" + PairText(
                   "topic_categories", lists("community_exception", "topic_categories"),
                   "allowed_domains", lists("community_exception", "allowed_domains")))]
               + BlockTexts(raw)) + "}")
  {
    hide Written, WrittenMember, CleanedList, PairText, Section, Quoted, Dumps, Joined, PromptBlock, BlockTexts, List2;
    CleanIsWritable(raw, lower, show);
    DumpedText(Obj(Clean(raw, lower, show)));
    var a := Member(Str(DENY), List2(Section(raw, DENY), DOMAINS, TLDS, lower, show));
    var b := Member(Str(PREFER), List2(Section(raw, PREFER), TLDS, DOMAINS, lower, show));
    var d := Member(Str(EXCEPTION), List2(Section(raw, EXCEPTION), CATEGORIES, ALLOWED, lower, show));
    SectionText(raw, DENY, DOMAINS, TLDS, lower, show);
    SectionText(raw, PREFER, TLDS, DOMAINS, lower, show);
    SectionText(raw, EXCEPTION, CATEGORIES, ALLOWED, lower, show);
    BlockIsWritten(raw);
    var block := PromptBlock(raw);
    MembersCons(d, block);
    MembersCons(b, [d] + block);
    MembersCons(a, [b] + ([d] + block));
    assert Clean(raw, lower, show) == [a] + ([b] + ([d] + block));
    assert [WrittenMember(a)] + ([WrittenMember(b)] + ([WrittenMember(d)] + BlockTexts(raw)))
        == [WrittenMember(a), WrittenMember(b), WrittenMember(d)] + BlockTexts(raw);
    ObjectText(Clean(raw, lower, show));
  }

  // -------------------------------------------------------- what a list holds

  /** A list holds exactly the lower-cased trimmed texts of the raw items that are not blank. */
  lemma ListedExactly(section: Members, key: string, lower: string -> string, show: Json -> string, s: string)
    ensures s in CleanedList(section, key, lower, show) <==>
            && s != ""
            && Get(section, key).Some? && Get(section, key).value.Arr?
            && exists i :: 0 <= i < |Get(section, key).value.items|
                 && var item := Get(section, key).value.items[i];
                    s == lower(Strip(if item.Str? then item.s else show(item)))
  {
    match Get(section, key)
    case Some(Arr(items)) =>
      FirstsHave(Normals(items, lower, show), s);
      assert forall i :: 0 <= i < |items| ==> Normals(items, lower, show)[i] == Normal(items[i], lower, show);
    case _ =>
  }

  /** A section that is missing or no object is empty; so is a list that is no array. */
  lemma MissingIsEmpty(raw: Members, section: string, key: string, lower: string -> string, show: Json -> string)
    requires !(Get(raw, section).Some? && Get(raw, section).value.Obj?)
    ensures CleanedList(Section(raw, section), key, lower, show) == []
  {
  }
}
