/**
  The letters of a canonical slug, and the forms in which one may be typed or stand in
  a URL (content_tool/wordpress/slug.py).
*/
module SlugForms {
  import opened Wrappers
  import opened HexDigits
  import opened PyStr
  import opened Seqs
  import opened Utf8
  import opened Slug

  // --------------------------------------------------- what quoting writes

  /** What is left as it is: letters, digits and nine marks. */
  const CAPITALS := "ABCDEFGHIJKLMNOPQRSTUVWXYZ"
  const LETTERS := "abcdefghijklmnopqrstuvwxyz"
  const DIGITS := "0123456789"
  const MARKS := "-_.!~*'()"
  const KEPT := CAPITALS + (LETTERS + (DIGITS + MARKS))

  const UPPER := "0123456789ABCDEF"

  lemma SafeIsKept(c: char)
    ensures IsSafe(c) <==> c in KEPT
  {
    LetterRange('A', 'Z', CAPITALS, c);
    LetterRange('a', 'z', LETTERS, c);
    LetterRange('0', '9', DIGITS, c);
    InFour(CAPITALS, LETTERS, DIGITS, MARKS, c);
  }

  lemma InFour(a: string, b: string, d: string, e: string, c: char)
    ensures c in a + (b + (d + e)) <==> c in a || c in b || c in d || c in e
  {
  }

  lemma LetterRange(first: char, last: char, all: string, c: char)
    requires first <= last && |all| == last as int - first as int + 1
    requires forall i :: 0 <= i < |all| ==> all[i] as int == first as int + i
    ensures first <= c <= last <==> c in all
  {
    if first <= c <= last {
      assert all[c as int - first as int] == c;
    }
  }

  /** One byte: itself, or a percent sign and two digits, letters in upper case. */
  lemma ByteIsQuoted(b: Byte)
    ensures QuoteByte(b)
            == if b < 0x80 && (b as char) in KEPT then [b as char] else ['%', UPPER[b / 16], UPPER[b % 16]]
  {
    if b < 0x80 {
      SafeIsKept(b as char);
    }
  }

  lemma {:induction false} QuoteBytesConcat(a: seq<Byte>, b: seq<Byte>)
    ensures QuoteBytes(a + b) == QuoteBytes(a) + QuoteBytes(b)
  {
    if a == [] {
      assert a + b == b;
    } else {
      DropAhead(a, b, 1);
      QuoteBytesConcat(a[1..], b);
    }
  }

  lemma {:induction false} EncodeConcat(a: string, b: string)
    ensures Encode(a + b) == Encode(a) + Encode(b)
  {
    if a == "" {
      assert a + b == b;
    } else {
      DropAhead(a, b, 1);
      EncodeConcat(a[1..], b);
    }
  }

  /** Quoting goes character by character; the kept ones stay, of the others each byte of
      the UTF-8 form is written out. */
  lemma QuoteByCharacter(c: char, s: string)
    ensures Quote([c] + s) == Quote([c]) + Quote(s)
    ensures c in KEPT ==> Quote([c]) == [c]
    ensures c !in KEPT ==> Quote([c]) == QuoteBytes(EncodeChar(c)) && '%' in Quote([c])
  {
    EncodeConcat([c], s);
    QuoteBytesConcat(Encode([c]), Encode(s));
    assert [c][1..] == "" && Encode([c]) == EncodeChar(c) + Encode("") == EncodeChar(c);
    SafeIsKept(c);
    var bs := EncodeChar(c);
    assert QuoteBytes(bs) == QuoteByte(bs[0]) + QuoteBytes(bs[1..]);
    if c in KEPT {
      KeptIsAscii(c);
      assert bs == [c as int] && QuoteBytes([]) == "";
    } else if c as int < 0x80 {
      assert bs == [c as int];
      assert QuoteByte(bs[0])[0] == '%';
    } else {
      assert bs[0] >= 0x80;
      assert QuoteByte(bs[0])[0] == '%';
    }
  }

  lemma KeptIsAscii(c: char)
    requires c in KEPT
    ensures c as int < 0x80
  {
    SafeIsKept(c);
  }

  // --------------------------------------------------- what unquoting reads

  predicate EscapeAt(s: string, i: nat) {
    i + 2 < |s| && s[i] == '%' && HexValue(s[i + 1]).Some? && HexValue(s[i + 2]).Some?
  }

  /** Nowhere a percent sign with two hexadecimal digits behind it. */
  predicate NoEscape(s: string) {
    forall i :: 0 <= i < |s| ==> !EscapeAt(s, i)
  }

  lemma NoEscapeIn(s: string, i: nat, j: nat)
    requires NoEscape(s) && i <= j <= |s|
    ensures NoEscape(s[i..j])
  {
    forall k | 0 <= k < j - i
      ensures !EscapeAt(s[i..j], k)
    {
      assert !EscapeAt(s, i + k);
    }
  }

  lemma {:induction false} AsciiStays(s: string)
    requires IsAscii(s) && NoEscape(s)
    ensures Decode(UnquoteToBytes(s)) == s
  {
    if s != "" {
      assert !EscapeAt(s, 0);
      NoEscapeIn(s, 1, |s|);
      assert s[1..|s|] == s[1..];
      AsciiStays(s[1..]);
      var bs := UnquoteToBytes(s);
      assert bs == [s[0] as int] + UnquoteToBytes(s[1..]);
      assert DecodeOne(bs) == (s[0], 1) && bs[1..] == UnquoteToBytes(s[1..]);
    }
  }

  /** Reading takes a run of ASCII at once, or one other character. */
  lemma UnquoteStep(s: string)
    requires s != ""
    ensures var n := AsciiRun(s);
            Unquote(s) == if s[0] < '\U{80}' then Decode(UnquoteToBytes(s[..n])) + Unquote(s[n..])
                          else [s[0]] + Unquote(s[1..])
  {
  }

  /** A text without an escape stands for itself, stray percent signs included. */
  lemma {:induction false} PlainStays(s: string)
    requires NoEscape(s)
    ensures Unquote(s) == s
    decreases |s|
  {
    hide *;
    if s == "" {
      NothingIsRead();
    } else if s[0] < '\U{80}' {
      var n := AsciiRun(s);
      UnquoteStep(s);
      NoEscapeIn(s, 0, n);
      assert s[0..n] == s[..n];
      AsciiStays(s[..n]);
      NoEscapeIn(s, n, |s|);
      assert s[n..|s|] == s[n..];
      PlainStays(s[n..]);
      assert s[..n] + s[n..] == s;
    } else {
      UnquoteStep(s);
      NoEscapeIn(s, 1, |s|);
      assert s[1..|s|] == s[1..];
      PlainStays(s[1..]);
    }
  }

  lemma NothingIsRead()
    ensures Unquote("") == ""
  {
  }

  /** `t` spells the bytes out: some escaped, with digits in either case, some not. */
  predicate Spells(t: string, bs: seq<Byte>) {
    if bs == [] then t == ""
    else if EscapeAt(t, 0) then
      HexValue(t[1]).value * 16 + HexValue(t[2]).value == bs[0] && Spells(t[3..], bs[1..])
    else t != "" && bs[0] < 0x80 && t[0] == bs[0] as char && Spells(t[1..], bs[1..])
  }

  lemma {:induction false} SpelledBytes(t: string, bs: seq<Byte>)
    requires Spells(t, bs)
    ensures IsAscii(t) && UnquoteToBytes(t) == bs && (bs != [] ==> t != "")
  {
    if bs != [] {
      if EscapeAt(t, 0) {
        SpelledBytes(t[3..], bs[1..]);
        HexIsAscii(t[1]);
        HexIsAscii(t[2]);
        assert forall i :: 3 <= i < |t| ==> t[i] == t[3..][i - 3];
      } else {
        SpelledBytes(t[1..], bs[1..]);
        assert forall i :: 1 <= i < |t| ==> t[i] == t[1..][i - 1];
      }
    }
  }

  lemma HexIsAscii(c: char)
    requires HexValue(c).Some?
    ensures c < '\U{80}'
  {
  }

  /** However a text is spelled with escapes, it is read as that text. */
  lemma AnySpellingIsRead(t: string, s: string)
    requires Spells(t, Encode(s))
    ensures Unquote(t) == s
  {
    SpelledBytes(t, Encode(s));
    DecodeEncoded(s);
    if t == "" {
      assert s == "" by { assert s != "" ==> Encode(s) != []; }
    } else {
      assert AsciiRun(t) == |t|;
      assert t[..|t|] == t && t[|t|..] == "" && Unquote("") == "";
    }
  }

  /**
    Whether a slug is typed as it reads or in any escaped spelling, its canonical form is
    the same: its quoted text.
  */
  lemma EveryFormGivesOneSlug(s: string, t: string)
    requires s != "" && Trimmed(s) && NoEscape(s)
    requires Spells(t, Encode(s)) && Trimmed(t)
    ensures CanonicalizeSlug(Some(s)) == Some(Quote(s)) && CanonicalizeSlug(Some(t)) == Some(Quote(s))
  {
    StripKeeps(s);
    StripKeeps(t);
    PlainStays(s);
    AnySpellingIsRead(t, s);
    assert t != "" by { assert Encode(s) != []; }
  }

  // ------------------------------------------------------------ slugs in URLs

  predicate IsScheme(scheme: string) {
    scheme != "" && IsAlphaNum(scheme[0]) && !('0' <= scheme[0] <= '9')
    && forall i :: 0 <= i < |scheme| ==> IsSchemeChar(scheme[i])
  }

  lemma SchemeGoes(scheme: string, rest: string)
    requires IsScheme(scheme)
    ensures DropScheme(scheme + (":" + rest)) == rest
  {
    BeforeSplit(scheme, ":" + rest, ":");
    assert (scheme + (":" + rest))[|scheme| + 1..] == rest;
  }

  lemma SchemeStays(scheme: string, rest: string)
    requires IsScheme(scheme)
    ensures DropControls(scheme + rest) == scheme + rest
  {
  }

  /** A query or a fragment, or nothing. */
  predicate IsTail(tail: string) {
    (tail == "" || tail[0] == '?' || tail[0] == '#') && forall i :: 0 <= i < |tail| ==> tail[i] !in "\t\r\n"
  }

  lemma {:induction false} BeforeShorter(s: string, tail: string, stops: string)
    requires forall i :: 0 <= i < |s| ==> s[i] !in stops
    ensures Before(s + tail, stops) == s + Before(tail, stops)
  {
    if s == "" {
      assert s + tail == tail;
    } else {
      DropAhead(s, tail, 1);
      BeforeShorter(s[1..], tail, stops);
    }
  }

  /** Cutting at the fragment and then at the query, or the other way round, leaves the path. */
  lemma TailsGo(path: string, tail: string)
    requires Plain(path, "?#") && IsTail(tail)
    ensures Before(Before(path + tail, "#"), "?") == path && Before(Before(path + tail, "?"), "#") == path
  {
    BeforeShorter(path, tail, "#");
    BeforeShorter(path, tail, "?");
    BeforeShorter(path, Before(tail, "#"), "?");
    BeforeShorter(path, Before(tail, "?"), "#");
    assert path + "" == path;
    assert Before(tail, "#") != "" ==> Before(tail, "#")[0] == '?';
    assert Before(tail, "?") != "" ==> Before(tail, "?")[0] == '#';
  }

  lemma PlainUrl(scheme: string, host: string, path: string, tail: string)
    requires IsScheme(scheme) && Plain(host, "/?#") && Plain(path, "?#") && IsTail(tail)
    ensures Plain(scheme + (":" + ("//" + (host + (path + tail)))), "")
  {
    assert forall i :: 0 <= i < |scheme| ==> IsSchemeChar(scheme[i]);
  }

  /** The path of an absolute address of any scheme, with a query or a fragment behind it. */
  lemma AnyAddressPath(scheme: string, host: string, path: string, tail: string, hostOk: string -> bool)
    requires IsScheme(scheme) && Plain(host, "/?#") && hostOk(host)
    requires Plain(path, "?#") && (path == "" || path[0] == '/') && IsTail(tail)
    ensures SlugPath(scheme + (":" + ("//" + (host + (path + tail)))), hostOk) == Some(path)
  {
    hide Contains, DropScheme, RemoveBreaks, DropControls;
    var rest := "//" + (host + (path + tail));
    var url := scheme + (":" + rest);
    assert url == scheme + ("://" + (host + (path + tail)));
    ContainsInside(scheme, "://", host + (path + tail));
    SchemeStays(scheme, ":" + rest);
    PlainUrl(scheme, host, path, tail);
    RemoveBreaksPlain(url, "");
    SchemeGoes(scheme, rest);
    AddressPath(host, path, tail);
  }

  lemma AddressPath(host: string, path: string, tail: string)
    requires Plain(host, "/?#") && Plain(path, "?#") && (path == "" || path[0] == '/') && IsTail(tail)
    ensures var s := "//" + (host + (path + tail));
            && s[2..] == host + (path + tail) && Before(s[2..], "/?#") == host
            && s[2 + |host|..] == path + tail
            && Before(Before(s[2 + |host|..], "#"), "?") == path
  {
    var s := "//" + (host + (path + tail));
    assert s[2..] == host + (path + tail);
    assert path + tail != "" ==> (path + tail)[0] in "/?#";
    BeforeSplit(host, path + tail, "/?#");
    assert s[2 + |host|..] == path + tail;
    TailsGo(path, tail);
  }

  /** An address whose authority the library refuses has no path. */
  lemma BadHostHasNoPath(scheme: string, host: string, path: string, tail: string, hostOk: string -> bool)
    requires IsScheme(scheme) && Plain(host, "/?#") && !hostOk(host)
    requires Plain(path, "?#") && (path == "" || path[0] == '/') && IsTail(tail)
    ensures SlugFromUrl(Some(scheme + (":" + ("//" + (host + (path + tail))))), hostOk) == None
  {
    hide Contains, DropScheme, RemoveBreaks, DropControls;
    var rest := "//" + (host + (path + tail));
    var url := scheme + (":" + rest);
    assert url == scheme + ("://" + (host + (path + tail)));
    ContainsInside(scheme, "://", host + (path + tail));
    SchemeStays(scheme, ":" + rest);
    PlainUrl(scheme, host, path, tail);
    RemoveBreaksPlain(url, "");
    SchemeGoes(scheme, rest);
    AddressPath(host, path, tail);
  }

  /** Without a scheme the text itself is the path, up to its query or fragment. */
  lemma BarePath(path: string, tail: string, hostOk: string -> bool)
    requires Plain(path, "?#") && IsTail(tail) && !Contains(path + tail, "://")
    ensures SlugPath(path + tail, hostOk) == Some(path)
  {
    TailsGo(path, tail);
  }

  /** A segment is the last one of a path with nothing but slashes behind it, and what
      is before it ends in a slash or is nothing. */
  lemma LastSegmentIs(front: string, seg: string, slashes: string)
    requires seg != "" && forall i :: 0 <= i < |seg| ==> seg[i] != '/'
    requires forall i :: 0 <= i < |slashes| ==> slashes[i] == '/'
    requires front == "" || front[|front| - 1] == '/'
    ensures LastSegment(front + seg + slashes) == Some(seg)
  {
    if front == "" {
      assert front + seg == seg;
      TrimSlashesOf(seg, slashes);
      NoSlashIsAll(seg);
    } else {
      var dir := front[..|front| - 1];
      assert front == dir + "/";
      LastSegmentOf(dir, seg, slashes);
    }
  }

  lemma {:induction false} NoSlashIsAll(seg: string)
    requires forall i :: 0 <= i < |seg| ==> seg[i] != '/'
    ensures AfterLastSlash(seg) == seg
  {
    if seg != "" {
      NoSlashIsAll(seg[..|seg| - 1]);
    }
  }

  lemma {:induction false} OnlySlashesGo(slashes: string)
    requires forall i :: 0 <= i < |slashes| ==> slashes[i] == '/'
    ensures TrimSlashes(slashes) == "" && LastSegment(slashes) == None
  {
    if slashes != "" {
      OnlySlashesGo(slashes[..|slashes| - 1]);
    }
  }

  /** The slug of an address is its last segment decoded; a path of slashes has none. */
  lemma SlugOfAddress(scheme: string, host: string, front: string, seg: string, slashes: string, tail: string,
                      hostOk: string -> bool)
    requires IsScheme(scheme) && Plain(host, "/?#") && hostOk(host) && IsTail(tail)
    requires Plain(front, "?#") && Plain(seg, "/?#") && front != "" && front[0] == front[|front| - 1] == '/'
    requires forall i :: 0 <= i < |slashes| ==> slashes[i] == '/'
    ensures var url := scheme + (":" + ("//" + (host + ((front + seg + slashes) + tail))));
            SlugFromUrl(Some(url), hostOk)
            == if seg != "" then Some(Unquote(seg))
               else match LastSegment(front + slashes) case None => None case Some(s) => Some(Unquote(s))
  {
    hide LastSegment, SlugPath;
    AnyAddressPath(scheme, host, front + seg + slashes, tail, hostOk);
    if seg != "" {
      LastSegmentIs(front, seg, slashes);
    } else {
      assert front + seg + slashes == front + slashes;
    }
  }

  /** White space and controls in front of an address, and line breaks in it, change nothing. */
  lemma {:induction false} ControlsGo(pre: string, url: string, hostOk: string -> bool)
    requires forall i :: 0 <= i < |pre| ==> pre[i] as int <= 0x20
    ensures UrlPath(pre + url, hostOk) == UrlPath(url, hostOk)
  {
    ControlsDrop(pre, url);
  }

  lemma {:induction false} ControlsDrop(pre: string, url: string)
    requires forall i :: 0 <= i < |pre| ==> pre[i] as int <= 0x20
    ensures DropControls(pre + url) == DropControls(url)
  {
    if pre == "" {
      assert pre + url == url;
    } else {
      DropAhead(pre, url, 1);
      ControlsDrop(pre[1..], url);
    }
  }

  lemma BreaksGo(a: string, c: char, b: string, hostOk: string -> bool)
    requires c in "\t\r\n"
    ensures UrlPath(a + ([c] + b), hostOk) == UrlPath(a + b, hostOk)
  {
    hide DropScheme;
    BreakDrops(a, c, b);
  }

  lemma {:induction false} BreakDrops(a: string, c: char, b: string)
    requires c in "\t\r\n"
    ensures RemoveBreaks(DropControls(a + ([c] + b))) == RemoveBreaks(DropControls(a + b))
  {
    Head(c, b);
    if a == "" {
      assert a + ([c] + b) == [c] + b && a + b == b;
    } else if a[0] as int <= 0x20 {
      DropAhead(a, [c] + b, 1);
      DropAhead(a, b, 1);
      BreakDrops(a[1..], c, b);
    } else {
      BreakRemoved(a, c, b);
    }
  }

  lemma {:induction false} BreakRemoved(a: string, c: char, b: string)
    requires c in "\t\r\n"
    ensures RemoveBreaks(a + ([c] + b)) == RemoveBreaks(a + b)
  {
    Head(c, b);
    if a == "" {
      assert a + ([c] + b) == [c] + b && a + b == b;
    } else {
      DropAhead(a, [c] + b, 1);
      DropAhead(a, b, 1);
      BreakRemoved(a[1..], c, b);
    }
  }
}
