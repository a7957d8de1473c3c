/**
  What assembly does to texts (content_tool/prompts_store.py): which stretches of a
  body are include directives, and what is put in their place.
*/
module PromptTexts {
  import opened Wrappers
  import opened Seqs
  import opened Prompts

  // ------------------------------------------------------ directives in texts

  const CLOSE := "}}"

  predicate IsName(name: string) {
    name != "" && forall i :: 0 <= i < |name| ==> IsNameChar(name[i])
  }

  /** The characters of a name, one by one, and how a directive begins. */
  lemma NameCharsListed(c: char)
    ensures IsNameChar(c) <==>
              c in {'A', 'B', 'C', 'D', 'E', 'F', 'G', 'H', 'I', 'J', 'K', 'L', 'M', 'N', 'O', 'P', 'Q', 'R', 'S',
                    'T', 'U', 'V', 'W', 'X', 'Y', 'Z', 'a', 'b', 'c', 'd', 'e', 'f', 'g', 'h', 'i', 'j', 'k', 'l',
                    'm', 'n', 'o', 'p', 'q', 'r', 's', 't', 'u', 'v', 'w', 'x', 'y', 'z', '0', '1', '2', '3', '4',
                    '5', '6', '7', '8', '9', '_', '.', '/', '-'}
    ensures OPEN == "{{include:"
  {
    assert c as int as char == c;
  }

  function Directive(name: string): string {
    OPEN + (name + CLOSE)
  }

  /** A directive begins at position i of `s`. */
  ghost predicate DirectiveAt(s: string, i: nat) {
    i <= |s| && exists name :: IsName(name) && Directive(name) <= s[i..]
  }

  /** No directive begins among the first n characters of `s`. */
  ghost predicate PlainUpTo(s: string, n: nat) {
    n <= |s| && forall i :: 0 <= i < n ==> !DirectiveAt(s, i)
  }

  lemma {:induction false} NameRunOver(name: string, rest: string)
    requires (forall i :: 0 <= i < |name| ==> IsNameChar(name[i])) && rest != "" && !IsNameChar(rest[0])
    ensures NameRun(name + rest) == |name|
  {
    if name == "" {
      assert name + rest == rest;
    } else {
      DropAhead(name, rest, 1);
      NameRunOver(name[1..], rest);
    }
  }

  lemma {:induction false} NameRunChars(s: string)
    ensures forall i :: 0 <= i < NameRun(s) ==> IsNameChar(s[i])
  {
    if s != "" && IsNameChar(s[0]) {
      NameRunChars(s[1..]);
      assert forall i :: 0 < i < NameRun(s) ==> s[i] == s[1..][i - 1];
    }
  }

  /** The head of `s` is the directive for `name`. */
  lemma MatchesExactly(s: string, name: string)
    ensures MatchInclude(s) == Some(name) <==> IsName(name) && Directive(name) <= s
  {
    hide NameRun;
    if IsName(name) && Directive(name) <= s {
      var rest := s[|Directive(name)|..];
      var tail := name + (CLOSE + rest);
      assert s == Directive(name) + rest;
      Regroup(OPEN, name + CLOSE, rest);
      Regroup(name, CLOSE, rest);
      assert s[|OPEN|..] == tail;
      NameRunOver(name, CLOSE + rest);
      assert tail[|name|..] == CLOSE + rest && tail[..|name|] == name;
    }
    if MatchInclude(s) == Some(name) {
      var tail := s[|OPEN|..];
      NameRunChars(tail);
      assert s == OPEN + tail && tail == name + tail[|name|..];
      assert tail[|name|..] == CLOSE + tail[|name|..][2..];
      assert s == Directive(name) + tail[|name|..][2..];
    }
  }

  /** There is a directive at the head of `s` exactly when the reader finds one. */
  lemma HeadMatches(s: string)
    ensures DirectiveAt(s, 0) <==> MatchInclude(s).Some?
  {
    hide MatchInclude, Directive, IsName;
    assert s[0..] == s;
    if name :| IsName(name) && Directive(name) <= s {
      MatchesExactly(s, name);
    }
    if MatchInclude(s).Some? {
      MatchesExactly(s, MatchInclude(s).value);
    }
  }

  function Chars(s: string): (ps: seq<Piece>)
    ensures |ps| == |s|
  {
    seq(|s|, i requires 0 <= i < |s| => Chr(s[i]))
  }

  lemma PlainBehind(s: string, n: nat)
    requires n > 0 && PlainUpTo(s, n)
    ensures PlainUpTo(s[1..], n - 1)
  {
    forall i | 0 <= i < n - 1
      ensures !DirectiveAt(s[1..], i)
    {
      assert s[1..][i..] == s[i + 1..];
      assert !DirectiveAt(s, i + 1);
    }
  }

  /** Up to the first directive a text is taken character by character. */
  lemma {:induction false} PlainIsKept(s: string, n: nat)
    requires PlainUpTo(s, n)
    ensures Pieces(s) == Chars(s[..n]) + Pieces(s[n..])
  {
    hide DirectiveAt, MatchInclude;
    if n == 0 {
      assert s[..0] == "" && s[0..] == s && Chars("") == [];
    } else {
      assert !DirectiveAt(s, 0);
      HeadMatches(s);
      PlainBehind(s, n);
      PlainIsKept(s[1..], n - 1);
      assert s[1..][..n - 1] == s[..n][1..] && s[1..][n - 1..] == s[n..];
      assert Chars(s[..n]) == [Chr(s[0])] + Chars(s[..n][1..]);
    }
  }

  /** The first directive of a text is recognised, and reading goes on behind it. */
  lemma FirstDirective(a: string, name: string, b: string)
    requires IsName(name) && PlainUpTo(a + (Directive(name) + b), |a|)
    ensures Pieces(a + (Directive(name) + b)) == Chars(a) + ([Include(name)] + Pieces(b))
  {
    hide DirectiveAt, MatchInclude, Directive;
    var s, d := a + (Directive(name) + b), Directive(name) + b;
    PlainIsKept(s, |a|);
    assert s[..|a|] == a && s[|a|..] == d;
    MatchesExactly(d, name);
    DirectiveLength(name);
    assert d[|Directive(name)|..] == b;
  }

  lemma DirectiveLength(name: string)
    ensures |Directive(name)| == |OPEN| + |name| + 2
  {
  }

  // -------------------------------------------------- fronts without an opening

  predicate Occurs(pat: string, s: string) {
    exists i :: 0 <= i <= |s| && pat <= s[i..]
  }

  /** From position m on `pat` goes like it begins. */
  predicate BeginsAgain(pat: string, m: nat)
    requires 0 < m < |pat|
  {
    pat[m] == pat[0] && (m + 1 < |pat| ==> pat[m + 1] == pat[1])
  }

  predicate Apart(pat: string) {
    |pat| > 1 && forall m :: 0 < m < |pat| ==> !BeginsAgain(pat, m)
  }

  /** Where two occurrences overlap, the end of one begins the other. */
  lemma Overlap(pat: string, a: string, b: string, i: nat)
    requires |pat| > 1 && i < |a| && pat <= (a + (pat + b))[i..]
    ensures |a| - i < |pat| ==> BeginsAgain(pat, |a| - i)
  {
    var s, m := a + (pat + b), |a| - i;
    assert forall k :: 0 <= k < |pat| ==> pat[k] == s[i..][k] == s[i + k];
    assert s[|a|] == pat[0] && s[|a| + 1] == pat[1];
    assert m < |pat| ==> pat[m] == s[i + m];
    assert m + 1 < |pat| ==> pat[m + 1] == s[i + m + 1];
  }

  lemma PatternsApart(pat: string, a: string, b: string, i: nat)
    requires Apart(pat) && i < |a| && pat <= (a + (pat + b))[i..]
    ensures pat <= a[i..]
  {
    Overlap(pat, a, b, i);
    assert |a| - i >= |pat|;
    assert a[i..] == (a + (pat + b))[i..][..|a| - i];
  }

  lemma OpeningInFront(a: string, b: string, i: nat)
    requires i < |a| && OPEN <= (a + b)[i..] && (b == "" || OPEN <= b)
    ensures Occurs(OPEN, a)
  {
    if b == "" {
      assert a + b == a;
    } else {
      assert b == OPEN + b[|OPEN|..];
      assert Apart(OPEN);
      PatternsApart(OPEN, a, b[|OPEN|..], i);
    }
  }

  /** In front of a text's end or of a directive, a text without the opening is plain. */
  lemma NoOpeningIsPlain(a: string, b: string)
    requires !Occurs(OPEN, a) && (b == "" || OPEN <= b)
    ensures PlainUpTo(a + b, |a|)
  {
    hide Occurs;
    forall i | 0 <= i < |a|
      ensures !DirectiveAt(a + b, i)
    {
      if name :| IsName(name) && Directive(name) <= (a + b)[i..] {
        OpeningInFront(a, b, i);
      }
    }
  }

  // --------------------------------------------------------------- assembly

  lemma ThenAssociates(a: Outcome, b: Outcome, c: Outcome)
    ensures Then(Then(a, b), c) == Then(a, Then(b, c))
    ensures Then(Assembled(""), a) == a && Then(a, Assembled("")) == a
  {
    if a.Assembled? && b.Assembled? && c.Assembled? {
      assert (a.text + b.text) + c.text == a.text + (b.text + c.text);
    }
    assert a.Assembled? ==> "" + a.text == a.text && a.text + "" == a.text;
  }

  lemma {:induction false} ResolveChars(a: string, ps: seq<Piece>, lib: Library, seen: set<string>)
    ensures Resolve(Chars(a) + ps, lib, seen) == Then(Assembled(a), Resolve(ps, lib, seen))
  {
    if a == "" {
      assert Chars(a) + ps == ps;
      ThenAssociates(Resolve(ps, lib, seen), Assembled(""), Assembled(""));
    } else {
      assert Chars(a) == [Chr(a[0])] + Chars(a[1..]);
      assert (Chars(a) + ps)[1..] == Chars(a[1..]) + ps && (Chars(a) + ps)[0] == Chr(a[0]);
      ResolveChars(a[1..], ps, lib, seen);
      ThenAssociates(Assembled([a[0]]), Assembled(a[1..]), Resolve(ps, lib, seen));
      assert [a[0]] + a[1..] == a;
    }
  }

  /** A text in which no directive begins is its own meaning. */
  lemma PlainTextIsItself(s: string, lib: Library, seen: set<string>)
    requires PlainUpTo(s, |s|)
    ensures Resolve(Pieces(s), lib, seen) == Assembled(s)
  {
    PlainIsKept(s, |s|);
    assert s[..|s|] == s && s[|s|..] == "";
    ResolveChars(s, [], lib, seen);
    ThenAssociates(Assembled(s), Assembled(""), Assembled(""));
  }

  /** Without the opening of a directive a stored body is assembled as it stands. */
  lemma PlainBodyIsAssembled(id: string, s: Store, voice: string)
    requires RawBody(s, voice, id).Some? && !Occurs(OPEN, RawBody(s, voice, id).value)
    ensures Assemble(id, s, voice) == Assembled(RawBody(s, voice, id).value)
  {
    var body := RawBody(s, voice, id).value;
    NoOpeningIsPlain(body, "");
    assert body + "" == body;
    PlainTextIsItself(body, View(s, voice), {});
  }

  /** What is expanded without names to avoid is expanded alike with them, if it succeeds at all. */
  lemma SeenOnlyStops(ps: seq<Piece>, lib: Library, seen: set<string>)
    requires Resolve(ps, lib, seen).Assembled?
    ensures Resolve(ps, lib, {}) == Resolve(ps, lib, seen)
  {
    ResolveIsUnfold(ps, lib, seen);
    UnfoldingExactly(ps, lib, Resolve(ps, lib, seen).text);
  }

  /**
    A body with a directive in it, and no opening before that: if it is assembled, then
    as the front, the assembled partial without its last newlines, and the assembled
    rest. A partial that has no row and no file is an error, once the front is done.
  */
  lemma DirectiveIsReplaced(a: string, name: string, b: string, s: Store, voice: string)
    requires IsName(name) && !Occurs(OPEN, a)
    ensures var r := ResolveBody(a + (Directive(name) + b), s, voice);
            && (RawBody(s, voice, name).None? ==> r == NotFound(name))
            && (r.Assembled? ==>
                  && RawBody(s, voice, name).Some?
                  && var inner := ResolveBody(RStripNewlines(RawBody(s, voice, name).value), s, voice);
                  && var rest := ResolveBody(b, s, voice);
                  && inner.Assembled? && rest.Assembled? && r.text == a + inner.text + rest.text)
  {
    hide Pieces, Directive, View;
    var lib := View(s, voice);
    DirectiveOpens(name, b);
    NoOpeningIsPlain(a, Directive(name) + b);
    FirstDirective(a, name, b);
    var ps := [Include(name)] + Pieces(b);
    ResolveChars(a, ps, lib, {});
    assert ps[1..] == Pieces(b);
    ViewIsRawBody(s, voice, name);
    if name in lib && Resolve(lib[name], lib, {} + {name}).Assembled? {
      SeenOnlyStops(lib[name], lib, {} + {name});
    }
  }

  lemma DirectiveOpens(name: string, b: string)
    ensures OPEN <= Directive(name) + b
  {
    Regroup(OPEN, name + CLOSE, b);
  }

  /** A partial without includes of its own is put in whatever else the body holds. */
  lemma PlainPartialIsInserted(a: string, name: string, b: string, s: Store, voice: string)
    requires IsName(name) && !Occurs(OPEN, a)
    requires RawBody(s, voice, name).Some? && !Occurs(OPEN, RStripNewlines(RawBody(s, voice, name).value))
    ensures ResolveBody(a + (Directive(name) + b), s, voice)
            == Then(Assembled(a + RStripNewlines(RawBody(s, voice, name).value)), ResolveBody(b, s, voice))
  {
    hide Pieces, Directive, View;
    var lib, partial := View(s, voice), RStripNewlines(RawBody(s, voice, name).value);
    DirectiveOpens(name, b);
    NoOpeningIsPlain(a, Directive(name) + b);
    FirstDirective(a, name, b);
    var ps := [Include(name)] + Pieces(b);
    ResolveChars(a, ps, lib, {});
    assert ps[1..] == Pieces(b);
    ViewIsRawBody(s, voice, name);
    NoOpeningIsPlain(partial, "");
    assert partial + "" == partial;
    PlainTextIsItself(partial, lib, {} + {name});
    ThenAssociates(Assembled(a), Assembled(partial), Resolve(Pieces(b), lib, {}));
  }

  /** Only the newlines at the end go, and all of them. */
  lemma {:induction false} OnlyFinalNewlinesGo(s: string)
    ensures var t := RStripNewlines(s);
            && t <= s
            && (forall i :: |t| <= i < |s| ==> s[i] == '\n')
            && (t != "" ==> t[|t| - 1] != '\n')
  {
    if s != "" && s[|s| - 1] == '\n' {
      OnlyFinalNewlinesGo(s[..|s| - 1]);
    }
  }

  // ------------------------------------------------------ the fallback chain

  /** A voice without a row of its own sees what the shared voice sees, and that is the
      shared row before the bundled file. A row of its own is all it sees. */
  lemma ChainFallsBack(s: Store, voice: string, id: string)
    ensures (voice, id) in s.rows ==> RawBody(s, voice, id) == Some(s.rows[(voice, id)].body)
    ensures (voice, id) !in s.rows ==> RawBody(s, voice, id) == RawBody(s, SHARED_VOICE, id)
    ensures (SHARED_VOICE, id) !in s.rows ==>
              RawBody(s, SHARED_VOICE, id) == if id in s.files then Some(s.files[id]) else None
  {
  }
}
