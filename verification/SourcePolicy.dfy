/**
  Normalising a source policy and its canonical text (content_tool/source_policy_store.py).

  `lower` stands for `str.lower` and `show` for `str` of a value that is no string.
*/
module SourcePolicy {
  import opened Wrappers
  import opened HexDigits
  import opened PyStr
  import opened Json

  type Members = seq<Member>

  // ----------------------------------------------------------- reading a dict

  /** The value under `key`: of repeated keys the last one counts. */
  function Get(ms: Members, key: string): Option<Json> {
    if ms == [] then None
    else if ms[|ms| - 1].key == Str(key) then Some(ms[|ms| - 1].value)
    else Get(ms[..|ms| - 1], key)
  }

  function Section(raw: Members, key: string): Members {
    match Get(raw, key)
    case Some(Obj(ms)) => ms
    case _ => []
  }

  // ------------------------------------------------------------ cleaning lists

  ghost predicate LowerOk(lower: string -> string, s: string) {
    lower(lower(s)) == lower(s) && (Trimmed(s) ==> Trimmed(lower(s)))
  }

  /** What is needed of `str.lower`. */
  ghost predicate Lawful(lower: string -> string) {
    forall s :: LowerOk(lower, s)
  }

  function AsText(item: Json, show: Json -> string): string {
    if item.Str? then item.s else show(item)
  }

  function Normal(item: Json, lower: string -> string, show: Json -> string): string {
    lower(Strip(AsText(item, show)))
  }

  function Normals(items: seq<Json>, lower: string -> string, show: Json -> string): (texts: seq<string>)
    ensures |texts| == |items| && forall i :: 0 <= i < |items| ==> texts[i] == Normal(items[i], lower, show)
  {
    seq(|items|, i requires 0 <= i < |items| => Normal(items[i], lower, show))
  }

  /** The texts that are not blank and did not occur earlier, in order. */
  function Firsts(texts: seq<string>): seq<string> {
    if texts == [] then []
    else
      var before, last := texts[..|texts| - 1], texts[|texts| - 1];
      if last != "" && last !in before then Firsts(before) + [last] else Firsts(before)
  }

  function CleanedList(section: Members, key: string, lower: string -> string, show: Json -> string): seq<string> {
    match Get(section, key)
    case Some(Arr(items)) => Firsts(Normals(items, lower, show))
    case _ => []
  }

  /** `_clean_list`, with its `out` and `seen`. */
  method CleanList(section: Members, key: string, lower: string -> string, show: Json -> string)
    returns (out: seq<string>)
    ensures out == CleanedList(section, key, lower, show)
  {
    out := [];
    var raw := Get(section, key);
    if raw.None? || !raw.value.Arr? {
      return;
    }
    var items := raw.value.items;
    ghost var texts := Normals(items, lower, show);
    var seen: set<string> := {};
    for i := 0 to |items|
      invariant out == Firsts(texts[..i])
      invariant forall s :: s in seen <==> s in out
    {
      var s := Strip(AsText(items[i], show));
      s := lower(s);
      FirstsStep(texts, i);
      FirstsHave(texts[..i], s);
      if s != "" && s !in seen {
        seen := seen + {s};
        out := out + [s];
      }
    }
    assert texts[..|items|] == texts;
  }

  lemma FirstsStep(texts: seq<string>, i: nat)
    requires i < |texts|
    ensures Firsts(texts[..i + 1])
            == if texts[i] != "" && texts[i] !in texts[..i] then Firsts(texts[..i]) + [texts[i]] else Firsts(texts[..i])
  {
    assert texts[..i + 1][..i] == texts[..i];
  }

  lemma {:induction false} FirstsHave(texts: seq<string>, s: string)
    ensures s in Firsts(texts) <==> s in texts && s != ""
  {
    if texts != [] {
      var before, last := texts[..|texts| - 1], texts[|texts| - 1];
      assert texts == before + [last];
      FirstsHave(before, s);
    }
  }

  lemma InSnoc(texts: seq<string>, s: string)
    ensures forall t :: t in texts + [s] <==> t in texts || t == s
  {
  }

  /** Where `s` first occurs. */
  function FirstAt(texts: seq<string>, s: string): (i: nat)
    requires s in texts
    ensures i < |texts| && texts[i] == s && s !in texts[..i]
  {
    if texts[0] == s then 0
    else
      assert texts == [texts[0]] + texts[1..];
      var i := FirstAt(texts[1..], s);
      assert texts[..1 + i] == [texts[0]] + texts[1..][..i];
      1 + i
  }

  lemma FirstAtEarlier(texts: seq<string>, s: string, k: nat)
    requires k < |texts| && texts[k] == s
    ensures FirstAt(texts, s) <= k
  {
    var i := FirstAt(texts, s);
    assert forall j :: 0 <= j < i ==> texts[..i][j] == texts[j] != s;
  }

  /** The first place of a text does not move when the list grows. */
  lemma FirstAtPrefix(before: seq<string>, last: string, s: string)
    requires s in before
    ensures s in before + [last] && FirstAt(before + [last], s) == FirstAt(before, s)
  {
    var texts := before + [last];
    var i := FirstAt(before, s);
    assert texts[i] == s;
    FirstAtEarlier(texts, s, i);
    var j := FirstAt(texts, s);
    assert before[j] == s;
    FirstAtEarlier(before, s, j);
  }

  /**
    A cleaned list holds exactly the texts that are not blank, each once, in the order
    of their first occurrences.
  */
  lemma {:induction false} FirstsAreFirstOccurrences(texts: seq<string>)
    ensures forall s :: s in Firsts(texts) <==> s in texts && s != ""
    ensures forall i, j :: 0 <= i < j < |Firsts(texts)| ==>
              FirstAt(texts, Firsts(texts)[i]) < FirstAt(texts, Firsts(texts)[j])
  {
    if texts != [] {
      var before, last := texts[..|texts| - 1], texts[|texts| - 1];
      assert texts == before + [last];
      InSnoc(before, last);
      FirstsAreFirstOccurrences(before);
      var r := Firsts(before);
      InSnoc(r, last);
      forall i, j | 0 <= i < j < |Firsts(texts)|
        ensures FirstAt(texts, Firsts(texts)[i]) < FirstAt(texts, Firsts(texts)[j])
      {
        assert Firsts(texts)[i] == r[i] && r[i] in r;
        FirstAtPrefix(before, last, r[i]);
        if j < |r| {
          assert r[j] in r;
          FirstAtPrefix(before, last, r[j]);
        } else {
          NewIsLast(before, last);
        }
      }
    }
  }

  lemma NewIsLast(before: seq<string>, last: string)
    requires last !in before
    ensures last in before + [last] && FirstAt(before + [last], last) == |before|
  {
    var texts := before + [last];
    assert texts[|before|] == last;
    var i := FirstAt(texts, last);
    FirstAtEarlier(texts, last, |before|);
    assert forall j :: 0 <= j < |before| ==> texts[j] == before[j] && before[j] in before;
  }

  predicate Distinct(texts: seq<string>) {
    forall i, j :: 0 <= i < j < |texts| ==> texts[i] != texts[j]
  }

  lemma FirstsDistinct(texts: seq<string>)
    ensures Distinct(Firsts(texts))
  {
    FirstsAreFirstOccurrences(texts);
    var r := Firsts(texts);
    forall i, j | 0 <= i < j < |r|
      ensures r[i] != r[j]
    {
      assert r[i] in r && r[j] in r;
    }
  }

  lemma {:induction false} FirstsOfClean(texts: seq<string>)
    requires Distinct(texts) && "" !in texts
    ensures Firsts(texts) == texts
  {
    if texts != [] {
      var before, last := texts[..|texts| - 1], texts[|texts| - 1];
      assert texts == before + [last];
      FirstsOfClean(before);
    }
  }

  // ----------------------------------------------------------------- cleaning

  function Strings(texts: seq<string>): (items: seq<Json>)
    ensures |items| == |texts| && forall i :: 0 <= i < |texts| ==> items[i] == Str(texts[i])
  {
    seq(|texts|, i requires 0 <= i < |texts| => Str(texts[i]))
  }

  function List2(section: Members, k1: string, k2: string, lower: string -> string, show: Json -> string): Json {
    Obj([Member(Str(k1), Arr(Strings(CleanedList(section, k1, lower, show)))),
         Member(Str(k2), Arr(Strings(CleanedList(section, k2, lower, show))))])
  }

  const DENY := "deny"
  const PREFER := "prefer"
  const EXCEPTION := "community_exception"
  const PROMPT := "prompt_block"
  const DOMAINS := "domains"
  const TLDS := "tlds"
  const CATEGORIES := "topic_categories"
  const ALLOWED := "allowed_domains"

  function PromptBlock(raw: Members): Members {
    match Get(raw, PROMPT)
    case Some(Str(s)) => if Strip(s) != "" then [Member(Str(PROMPT), Str(Strip(s)))] else []
    case _ => []
  }

  /** `clean`: the fixed keys in their fixed order, then the prompt block if there is one. */
  function Clean(raw: Members, lower: string -> string, show: Json -> string): Members {
    [Member(Str(DENY), List2(Section(raw, DENY), DOMAINS, TLDS, lower, show)),
     Member(Str(PREFER), List2(Section(raw, PREFER), TLDS, DOMAINS, lower, show)),
     Member(Str(EXCEPTION), List2(Section(raw, EXCEPTION), CATEGORIES, ALLOWED, lower, show))] + PromptBlock(raw)
  }

  lemma KeysDiffer()
    ensures |DENY| == 4 && |PREFER| == 6 && |EXCEPTION| == 19 && |PROMPT| == 12
    ensures |DOMAINS| == 7 && |TLDS| == 4 && |CATEGORIES| == 16 && |ALLOWED| == 15
  {
  }

  lemma {:induction false} GetAt(ms: Members, i: nat, key: string)
    requires i < |ms| && ms[i].key == Str(key)
    requires forall j :: i < j < |ms| ==> ms[j].key != Str(key)
    ensures Get(ms, key) == Some(ms[i].value)
  {
    if i < |ms| - 1 {
      GetAt(ms[..|ms| - 1], i, key);
    }
  }

  lemma {:induction false} GetMissing(ms: Members, key: string)
    requires forall j :: 0 <= j < |ms| ==> ms[j].key != Str(key)
    ensures Get(ms, key) == None
  {
    if ms != [] {
      GetMissing(ms[..|ms| - 1], key);
    }
  }

  /** Reading a cleaned list again gives the same list. */
  lemma CleanedListAgain(section: Members, key: string, ms: Members, k: string,
                         lower: string -> string, show: Json -> string)
    requires Lawful(lower)
    requires Get(ms, k) == Some(Arr(Strings(CleanedList(section, key, lower, show))))
    ensures CleanedList(ms, k, lower, show) == CleanedList(section, key, lower, show)
  {
    var r := CleanedList(section, key, lower, show);
    match Get(section, key)
    case Some(Arr(items)) =>
      var texts := Normals(items, lower, show);
      FirstsAreFirstOccurrences(texts);
      FirstsDistinct(texts);
      forall i | 0 <= i < |r|
        ensures Normal(Str(r[i]), lower, show) == r[i]
      {
        assert r[i] in r;
        var j :| 0 <= j < |texts| && texts[j] == r[i];
        NormalAgain(items[j], lower, show);
      }
      assert Normals(Strings(r), lower, show) == r;
      assert "" !in r;
      FirstsOfClean(r);
    case _ =>
      assert Normals(Strings(r), lower, show) == [];
  }

  lemma NormalAgain(item: Json, lower: string -> string, show: Json -> string)
    requires Lawful(lower)
    ensures var s := Normal(item, lower, show); Normal(Str(s), lower, show) == s
  {
    var t := Strip(AsText(item, show));
    StripTrims(AsText(item, show));
    assert LowerOk(lower, t);
    var s := lower(t);
    assert LStrip(s) == s && RStrip(s) == s;
  }

  predicate IsNormal(s: string, lower: string -> string) {
    s != "" && Trimmed(s) && lower(s) == s
  }

  /** The raw list under `key` has `s` among its items. */
  predicate Lists(section: Members, key: string, s: string) {
    Get(section, key).Some? && Get(section, key).value.Arr? && Str(s) in Get(section, key).value.items
  }

  /**
    What a cleaned list holds is trimmed, lower-cased and not blank, each text once; and
    a text of the raw list that already is so stays in it.
  */
  lemma CleanedListIsNormal(section: Members, key: string, lower: string -> string, show: Json -> string, s: string)
    requires Lawful(lower)
    ensures var r := CleanedList(section, key, lower, show);
            && Distinct(r)
            && (s in r ==> IsNormal(s, lower))
            && (IsNormal(s, lower) && Lists(section, key, s) ==> s in r)
  {
    match Get(section, key)
    case Some(Arr(items)) =>
      var texts := Normals(items, lower, show);
      FirstsDistinct(texts);
      FirstsHave(texts, s);
      if s in texts {
        var j :| 0 <= j < |texts| && texts[j] == s;
        StripTrims(AsText(items[j], show));
        assert LowerOk(lower, Strip(AsText(items[j], show)));
      }
      if IsNormal(s, lower) && Str(s) in items {
        var j :| 0 <= j < |items| && items[j] == Str(s);
        assert LStrip(s) == s && RStrip(s) == s;
        assert texts[j] == s;
      }
    case _ =>
  }

  /** A prompt block loses the white space around it and nothing else. */
  lemma PromptBlockIsTrimmed(raw: Members, pad: string, text: string, padAfter: string)
    requires text != "" && Trimmed(text) && Strip(pad) == "" && Strip(padAfter) == ""
    requires Get(raw, PROMPT) == Some(Str(pad + (text + padAfter)))
    ensures PromptBlock(raw) == [Member(Str(PROMPT), Str(text))]
  {
    StripAround(pad, text, padAfter);
    BlankStrips(pad);
    BlankStrips(padAfter);
    assert "" + (text + "") == text;
  }

  lemma List2Again(section: Members, k1: string, k2: string, lower: string -> string, show: Json -> string)
    requires Lawful(lower) && k1 != k2
    ensures var once := List2(section, k1, k2, lower, show);
            List2(once.members, k1, k2, lower, show) == once
  {
    var ms := List2(section, k1, k2, lower, show).members;
    GetAt(ms, 0, k1);
    GetAt(ms, 1, k2);
    CleanedListAgain(section, k1, ms, k1, lower, show);
    CleanedListAgain(section, k2, ms, k2, lower, show);
  }

  lemma SectionsOfClean(raw: Members, lower: string -> string, show: Json -> string)
    ensures var c := Clean(raw, lower, show);
            && Get(c, DENY) == Some(c[0].value)
            && Get(c, PREFER) == Some(c[1].value)
            && Get(c, EXCEPTION) == Some(c[2].value)
            && PromptBlock(c) == PromptBlock(raw)
  {
    var c := Clean(raw, lower, show);
    KeysDiffer();
    GetAt(c, 0, DENY);
    GetAt(c, 1, PREFER);
    GetAt(c, 2, EXCEPTION);
    if PromptBlock(raw) == [] {
      GetMissing(c, PROMPT);
    } else {
      GetAt(c, 3, PROMPT);
      var s := Get(raw, PROMPT).value.s;
      StripTrims(s);
    }
  }

  /** Cleaning a clean policy changes nothing. */
  lemma CleanIsIdempotent(raw: Members, lower: string -> string, show: Json -> string)
    requires Lawful(lower)
    ensures Clean(Clean(raw, lower, show), lower, show) == Clean(raw, lower, show)
  {
    var c := Clean(raw, lower, show);
    SectionsOfClean(raw, lower, show);
    KeysDiffer();
    List2Again(Section(raw, DENY), DOMAINS, TLDS, lower, show);
    List2Again(Section(raw, PREFER), TLDS, DOMAINS, lower, show);
    List2Again(Section(raw, EXCEPTION), CATEGORIES, ALLOWED, lower, show);
    assert Section(c, DENY) == c[0].value.members;
    assert Section(c, PREFER) == c[1].value.members;
    assert Section(c, EXCEPTION) == c[2].value.members;
  }

  /** The six lists a policy is made of. */
  predicate IsPolicyList(section: string, key: string) {
    (section == DENY && (key == DOMAINS || key == TLDS))
    || (section == PREFER && (key == TLDS || key == DOMAINS))
    || (section == EXCEPTION && (key == CATEGORIES || key == ALLOWED))
  }

  /** Any of the six lists says the same before and after, and so does the prompt block. */
  lemma CleanKeepsMeaning(raw: Members, section: string, key: string, lower: string -> string, show: Json -> string)
    requires Lawful(lower) && IsPolicyList(section, key)
    ensures var c := Clean(raw, lower, show);
            && CleanedList(Section(c, section), key, lower, show)
               == CleanedList(Section(raw, section), key, lower, show)
            && PromptBlock(c) == PromptBlock(raw)
  {
    var c := Clean(raw, lower, show);
    SectionsOfClean(raw, lower, show);
    KeysDiffer();
    var i := if section == DENY then 0 else if section == PREFER then 1 else 2;
    var ms := c[i].value.members;
    assert Section(c, section) == ms;
    GetAt(ms, if ms[0].key == Str(key) then 0 else 1, key);
    CleanedListAgain(Section(raw, section), key, ms, key, lower, show);
  }

  // -------------------------------------------------------- the canonical text

  /** How `json.dumps` with `ensure_ascii=False` writes one character. */
  function Escape(c: char): (p: Piece)
    ensures PieceOk(p) && PieceUnit(p) == c as int && !IsHexHigh(p)
  {
    if c == '"' then Short('"')
    else if c == '\\' then Short('\\')
    else if c == '\n' then Short('n')
    else if c == '\r' then Short('r')
    else if c == '\t' then Short('t')
    else if c == '\U{C}' then Short('f')
    else if c == '\U{8}' then Short('b')
    else if c as int < 0x20 then
      HexRead(c as int / 16, c as int % 16);
      Hex(['0', '0', HexDigit(c as int / 16, 'a'), HexDigit(c as int % 16, 'a')])
    else Plain(c)
  }

  lemma HexRead(a: int, b: int)
    requires 0 <= a < 16 && 0 <= b < 16
    ensures Hex4(['0', '0', HexDigit(a, 'a'), HexDigit(b, 'a')]) == Some(a * 16 + b)
  {
  }

  function Escapes(s: string): (ps: seq<Piece>)
    ensures |ps| == |s| && forall i :: 0 <= i < |s| ==> ps[i] == Escape(s[i])
  {
    seq(|s|, i requires 0 <= i < |s| => Escape(s[i]))
  }

  /** Numbers as JSON has them, texts and keys without lone surrogates. */
  predicate Writable(v: Json)
    decreases v, 1
  {
    match v
    case Num(text) => text != "" && NumberLength(text) == |text|
    case Arr(items) => ItemsWritable(items)
    case Obj(members) => MembersWritable(members)
    case Wild(_) => false
    case _ => true
  }

  predicate ItemsWritable(items: seq<Json>)
    decreases items, 0
  {
    items == [] || (Writable(items[0]) && ItemsWritable(items[1..]))
  }

  predicate MembersWritable(ms: Members)
    decreases ms, 0
  {
    ms == [] || (MemberWritable(ms[0]) && MembersWritable(ms[1..]))
  }

  predicate MemberWritable(m: Member)
    decreases m, 1
  {
    m.key.Str? && Writable(m.value)
  }

  /** The compact layout: no white space anywhere. */
  function Compact(v: Json): Syntax
    requires Writable(v)
    decreases v, 1
  {
    match v
    case Null => Literal(v)
    case Bool(_) => Literal(v)
    case Num(text) => Number(text)
    case Str(s) => Text(Escapes(s))
    case Arr(items) => List("", CompactElems(items))
    case Obj(members) => Dict("", CompactEntries(members))
  }

  function CompactElems(items: seq<Json>): seq<Elem>
    requires ItemsWritable(items)
    decreases items, 0
  {
    if items == [] then [] else [Elem("", Compact(items[0]), "")] + CompactElems(items[1..])
  }

  function CompactEntries(ms: Members): seq<Entry>
    requires MembersWritable(ms)
    decreases ms, 0
  {
    if ms == [] then []
    else [CompactEntry(ms[0])] + CompactEntries(ms[1..])
  }

  function CompactEntry(m: Member): Entry
    requires MemberWritable(m)
    decreases m, 1
  {
    Entry("", Escapes(m.key.s), "", "", Compact(m.value), "")
  }

  /** `json.dumps(value, ensure_ascii=False, separators=(",", ":"))`. */
  function Dumps(v: Json): string
    requires Writable(v)
  {
    Print(Compact(v))
  }

  /** `canonical_json`. */
  function Canonical(raw: Members, lower: string -> string, show: Json -> string): string {
    CleanIsWritable(raw, lower, show);
    Dumps(Obj(Clean(raw, lower, show)))
  }

  lemma {:induction false} EscapesPoints(s: string)
    ensures PiecesOk(Escapes(s))
    ensures var points := PiecesPoints(Escapes(s));
            |points| == |s| && forall i :: 0 <= i < |s| ==> points[i] == s[i] as int
  {
    hide Escape;
    if s != "" {
      EscapesPoints(s[1..]);
      assert Escapes(s)[0] == Escape(s[0]);
      assert Escapes(s)[1..] == Escapes(s[1..]);
    }
  }

  lemma EscapesText(s: string)
    ensures PiecesOk(Escapes(s)) && PiecesText(Escapes(s)) == Str(s)
  {
    hide PiecesPoints;
    EscapesPoints(s);
    var points := PiecesPoints(Escapes(s));
    assert forall i :: 0 <= i < |s| ==> IsScalar(s[i] as int);
    assert Chars(points) == s;
  }

  /** The compact layout is a correct way of writing the value. */
  lemma {:induction false} CompactWrites(v: Json)
    requires Writable(v)
    ensures Ok(Compact(v)) && Value(Compact(v)) == v
    decreases v, 1
  {
    match v
    case Null =>
    case Bool(b) =>
    case Num(text) =>
    case Str(s) => EscapesText(s);
    case Arr(items) => CompactWritesElems(items);
    case Obj(members) => CompactWritesEntries(members);
  }

  lemma {:induction false} CompactWritesElems(items: seq<Json>)
    requires ItemsWritable(items)
    ensures ElemsOk(CompactElems(items)) && ElemValues(CompactElems(items)) == items
    decreases items, 0
  {
    if items != [] {
      CompactWrites(items[0]);
      CompactWritesElems(items[1..]);
      assert CompactElems(items)[1..] == CompactElems(items[1..]);
    }
  }

  lemma {:induction false} CompactWritesEntries(ms: Members)
    requires MembersWritable(ms)
    ensures EntriesOk(CompactEntries(ms)) && EntryValues(CompactEntries(ms)) == ms
    decreases ms, 0
  {
    if ms != [] {
      CompactWritesEntry(ms[0]);
      CompactWritesEntries(ms[1..]);
      assert CompactEntries(ms)[1..] == CompactEntries(ms[1..]);
      assert [Member(ms[0].key, ms[0].value)] + ms[1..] == ms;
    }
  }

  lemma CompactWritesEntry(m: Member)
    requires MemberWritable(m)
    ensures var e := CompactEntry(m);
            PiecesOk(e.key) && Ok(e.value) && Member(PiecesText(e.key), Value(e.value)) == m
            && e.lead == e.afterKey == e.beforeValue == e.trail == ""
    decreases m, 1
  {
    EscapesText(m.key.s);
    CompactWrites(m.value);
  }

  /** Reading what was dumped gives the value back. */
  lemma LoadsDumped(v: Json)
    requires Writable(v)
    ensures Loads(Dumps(v)) == Some(v)
  {
    CompactWrites(v);
    LoadsPrinted(Compact(v));
  }

  lemma {:induction false} StringsOk(texts: seq<string>)
    ensures ItemsWritable(Strings(texts))
  {
    if texts != [] {
      StringsOk(texts[1..]);
      assert Strings(texts)[1..] == Strings(texts[1..]);
    }
  }

  lemma List2Ok(section: Members, k1: string, k2: string, lower: string -> string, show: Json -> string)
    ensures Writable(List2(section, k1, k2, lower, show))
  {
    StringsOk(CleanedList(section, k1, lower, show));
    StringsOk(CleanedList(section, k2, lower, show));
    var ms := List2(section, k1, k2, lower, show).members;
    EachOk(ms);
  }

  lemma {:induction false} EachOk(ms: Members)
    requires forall i :: 0 <= i < |ms| ==> MemberWritable(ms[i])
    ensures MembersWritable(ms)
  {
    if ms != [] {
      EachOk(ms[1..]);
    }
  }

  lemma CleanIsWritable(raw: Members, lower: string -> string, show: Json -> string)
    ensures MembersWritable(Clean(raw, lower, show))
  {
    List2Ok(Section(raw, DENY), DOMAINS, TLDS, lower, show);
    List2Ok(Section(raw, PREFER), TLDS, DOMAINS, lower, show);
    List2Ok(Section(raw, EXCEPTION), CATEGORIES, ALLOWED, lower, show);
    EachOk(Clean(raw, lower, show));
  }

  /**
    The canonical text of any policy is read back as the cleaned policy, whose own
    canonical text is the same; so saving what was loaded never changes the bytes.
  */
  lemma CanonicalIsFixedPoint(raw: Members, lower: string -> string, show: Json -> string)
    requires Lawful(lower)
    ensures Loads(Canonical(raw, lower, show)) == Some(Obj(Clean(raw, lower, show)))
    ensures Canonical(Clean(raw, lower, show), lower, show) == Canonical(raw, lower, show)
  {
    CleanIsWritable(raw, lower, show);
    LoadsDumped(Obj(Clean(raw, lower, show)));
    CleanIsIdempotent(raw, lower, show);
  }

  /** Two policies have one canonical text exactly when they clean to the same policy. */
  lemma CanonicalSeparates(a: Members, b: Members, lower: string -> string, show: Json -> string)
    ensures Canonical(a, lower, show) == Canonical(b, lower, show) <==> Clean(a, lower, show) == Clean(b, lower, show)
  {
    CleanIsWritable(a, lower, show);
    CleanIsWritable(b, lower, show);
    LoadsDumped(Obj(Clean(a, lower, show)));
    LoadsDumped(Obj(Clean(b, lower, show)));
  }

  // ------------------------------------------------ what is asked of str.lower

  function AsciiLowerChar(c: char): char {
    if 'A' <= c <= 'Z' then (c as int + 32) as char else c
  }

  function AsciiLower(s: string): (t: string)
    ensures |t| == |s| && forall i :: 0 <= i < |s| ==> t[i] == AsciiLowerChar(s[i])
  {
    seq(|s|, i requires 0 <= i < |s| => AsciiLowerChar(s[i]))
  }

  /** Lower-casing ASCII letters keeps the two laws. */
  lemma AsciiLowerIsLawful()
    ensures Lawful(AsciiLower)
  {
    forall s
      ensures LowerOk(AsciiLower, s)
    {
      assert AsciiLower(AsciiLower(s)) == AsciiLower(s);
    }
  }
}
