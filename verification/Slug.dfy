/**
  Canonical WordPress slugs and the choice between overwriting a post and
  creating a new one (content_tool/wordpress/slug.py).
*/
module Slug {
  import opened Wrappers
  import opened HexDigits
  import opened PyStr
  import opened Utf8

  // ------------------------------------------------------- percent-encoding

  predicate IsAlphaNum(c: char) {
    'A' <= c <= 'Z' || 'a' <= c <= 'z' || '0' <= c <= '9'
  }

  /** What JavaScript's encodeURIComponent leaves alone. */
  predicate IsSafe(c: char) {
    IsAlphaNum(c) || c in "-_.!~*'()"
  }

  function QuoteByte(b: Byte): (s: string) {
    if b < 0x80 && IsSafe(b as char) then [b as char]
    else ['%', HexDigit(b / 16, 'A'), HexDigit(b % 16, 'A')]
  }

  function QuoteBytes(bs: seq<Byte>): (s: string) {
    if bs == [] then "" else QuoteByte(bs[0]) + QuoteBytes(bs[1..])
  }

  function Quote(s: string): string {
    QuoteBytes(Encode(s))
  }

  predicate IsAscii(s: string) {
    forall i :: 0 <= i < |s| ==> s[i] < '\U{80}'
  }

  /** `%XX` pairs become bytes; anything else stands for itself. */
  function UnquoteToBytes(s: string): (bs: seq<Byte>)
    requires IsAscii(s)
    ensures s != "" ==> bs != []
    decreases |s|
  {
    if s == "" then []
    else if s[0] == '%' && |s| >= 3 && HexValue(s[1]).Some? && HexValue(s[2]).Some? then
      [HexValue(s[1]).value * 16 + HexValue(s[2]).value] + UnquoteToBytes(s[3..])
    else [s[0] as int] + UnquoteToBytes(s[1..])
  }

  function AsciiRun(s: string): (n: nat)
    ensures n <= |s| && IsAscii(s[..n])
    ensures s != "" && s[0] < '\U{80}' ==> n > 0
    ensures n < |s| ==> s[n] >= '\U{80}'
  {
    if s == "" || s[0] >= '\U{80}' then 0
    else
      var n := AsciiRun(s[1..]);
      assert forall i :: 0 < i <= n ==> s[i] == s[1..][i - 1];
      1 + n
  }

  /** Each ASCII run is decoded on its own; other characters pass through. */
  function Unquote(s: string): (t: string)
    ensures s != "" ==> t != ""
    decreases |s|
  {
    if s == "" then ""
    else if s[0] < '\U{80}' then
      var n := AsciiRun(s);
      Decode(UnquoteToBytes(s[..n])) + Unquote(s[n..])
    else [s[0]] + Unquote(s[1..])
  }

  lemma QuoteByteShape(b: Byte, rest: string)
    requires IsAscii(rest)
    ensures IsAscii(QuoteByte(b) + rest)
    ensures UnquoteToBytes(QuoteByte(b) + rest) == [b] + UnquoteToBytes(rest)
  {
    var q := QuoteByte(b) + rest;
    if b < 0x80 && IsSafe(b as char) {
      assert q[1..] == rest;
      assert q[0] != '%';
    } else {
      assert q[3..] == rest;
    }
  }

  lemma {:induction false} BytesRoundTrip(bs: seq<Byte>)
    ensures IsAscii(QuoteBytes(bs)) && UnquoteToBytes(QuoteBytes(bs)) == bs
  {
    if bs != [] {
      BytesRoundTrip(bs[1..]);
      QuoteByteShape(bs[0], QuoteBytes(bs[1..]));
    }
  }

  /** Percent-decoding undoes percent-encoding, for every text. */
  lemma UnquoteQuoted(s: string)
    ensures Unquote(Quote(s)) == s
  {
    var q := Quote(s);
    BytesRoundTrip(Encode(s));
    DecodeEncoded(s);
    if q == "" {
      assert Decode(UnquoteToBytes(q)) == s;
    } else {
      assert AsciiRun(q) == |q|;
      assert q[..|q|] == q && q[|q|..] == "";
    }
  }

  /** Every character the encoder writes is a safe one, a hexadecimal digit or
      the percent sign: no white space, no slash, no delimiter. */
  predicate Encoded(s: string) {
    forall i :: 0 <= i < |s| ==> IsSafe(s[i]) || s[i] == '%'
  }

  lemma {:induction false} QuotedIsEncoded(bs: seq<Byte>)
    ensures Encoded(QuoteBytes(bs))
    ensures bs != [] ==> QuoteBytes(bs) != ""
  {
    if bs != [] {
      QuotedIsEncoded(bs[1..]);
    }
  }

  // --------------------------------------------------------- canonical slugs

  function CanonicalizeSlug(raw: Option<string>): Option<string> {
    if raw.None? || Strip(raw.value) == "" then None
    else Some(Quote(Unquote(Strip(raw.value))))
  }

  lemma StripEncoded(s: string)
    requires Encoded(s)
    ensures Strip(s) == s
  {
  }

  /** The canonical form of a non-blank slug, decoded, is the trimmed input decoded. */
  lemma CanonicalKeepsMeaning(raw: string)
    requires Strip(raw) != ""
    ensures var c := CanonicalizeSlug(Some(raw));
            && c.Some? && c.value != "" && Encoded(c.value)
            && Strip(c.value) == c.value
            && Unquote(c.value) == Unquote(Strip(raw))
  {
    var u := Unquote(Strip(raw));
    UnquoteQuoted(u);
    QuotedIsEncoded(Encode(u));
    StripEncoded(Quote(u));
  }

  lemma CanonicalIsIdempotent(raw: Option<string>)
    ensures CanonicalizeSlug(CanonicalizeSlug(raw)) == CanonicalizeSlug(raw)
  {
    if raw.Some? && Strip(raw.value) != "" {
      CanonicalKeepsMeaning(raw.value);
    }
  }

  /** Two slugs share a canonical form exactly when they trim and decode to the
      same text. */
  lemma CanonicalSeparates(a: string, b: string)
    requires Strip(a) != "" && Strip(b) != ""
    ensures CanonicalizeSlug(Some(a)) == CanonicalizeSlug(Some(b)) <==> Unquote(Strip(a)) == Unquote(Strip(b))
  {
    CanonicalKeepsMeaning(a);
    CanonicalKeepsMeaning(b);
  }

  // ------------------------------------------------------- the slug of a URL

  /** The part of `s` before the first character of `stops`. */
  function Before(s: string, stops: string): (t: string)
    ensures t <= s
    ensures forall i :: 0 <= i < |t| ==> t[i] !in stops
    ensures |t| < |s| ==> s[|t|] in stops
  {
    if s == "" || s[0] in stops then "" else [s[0]] + Before(s[1..], stops)
  }

  predicate Contains(s: string, needle: string)
    decreases |s|
  {
    needle <= s || (s != "" && Contains(s[1..], needle))
  }

  /** C0 controls and space, dropped at the front of a URL. */
  function DropControls(s: string): string {
    if s != "" && s[0] as int <= 0x20 then DropControls(s[1..]) else s
  }

  function RemoveBreaks(s: string): string {
    if s == "" then ""
    else if s[0] in "\t\r\n" then RemoveBreaks(s[1..])
    else [s[0]] + RemoveBreaks(s[1..])
  }

  predicate IsSchemeChar(c: char) {
    IsAlphaNum(c) || c in "+-."
  }

  function DropScheme(s: string): string {
    var scheme := Before(s, ":");
    if scheme != "" && |scheme| < |s| && IsAlphaNum(scheme[0]) && !('0' <= scheme[0] <= '9')
       && (forall i :: 0 <= i < |scheme| ==> IsSchemeChar(scheme[i]))
    then s[|scheme| + 1..] else s
  }

  /** `urlsplit(url).path`; `hostOk` is the library's check of the authority
      (bracketed addresses, characters that change under normalisation), which
      raises ValueError when it fails. */
  function UrlPath(url: string, hostOk: string -> bool): Option<string> {
    var s := DropScheme(RemoveBreaks(DropControls(url)));
    if "//" <= s then
      var host := Before(s[2..], "/?#");
      if hostOk(host) then Some(Before(Before(s[2 + |host|..], "#"), "?")) else None
    else if hostOk("") then Some(Before(Before(s, "#"), "?")) else None
  }

  function TrimSlashes(s: string): string {
    if s != "" && s[|s| - 1] == '/' then TrimSlashes(s[..|s| - 1]) else s
  }

  function AfterLastSlash(s: string): (t: string) {
    if s == "" || s[|s| - 1] == '/' then "" else AfterLastSlash(s[..|s| - 1]) + [s[|s| - 1]]
  }

  /** The last non-empty segment. */
  function LastSegment(path: string): Option<string> {
    var seg := AfterLastSlash(TrimSlashes(path));
    if seg == "" then None else Some(seg)
  }

  function SlugPath(url: string, hostOk: string -> bool): Option<string> {
    if Contains(url, "://") then UrlPath(url, hostOk) else Some(Before(Before(url, "?"), "#"))
  }

  function SlugFromUrl(url: Option<string>, hostOk: string -> bool): Option<string> {
    if url.None? || url.value == "" then None
    else match SlugPath(url.value, hostOk)
      case None => None
      case Some(path) =>
        match LastSegment(path)
        case None => None
        case Some(seg) => Some(Unquote(seg))
  }

  /** The decision: None asks for a new post. */
  function ResolvePostIdForSlug<Id>(existing: Option<Id>, url: Option<string>, rawSlug: Option<string>,
                                    hostOk: string -> bool): Option<Id> {
    var newSlug := Unquote(Strip(if rawSlug.None? then "" else rawSlug.value));
    var oldSlug := SlugFromUrl(url, hostOk);
    if existing.Some? && oldSlug.Some? && newSlug != "" && Some(newSlug) != oldSlug then None else existing
  }

  /** Canonicalising a slug never changes which post is written. */
  lemma CanonicalKeepsTarget<Id>(existing: Option<Id>, url: Option<string>, raw: Option<string>, hostOk: string -> bool)
    ensures ResolvePostIdForSlug(existing, url, CanonicalizeSlug(raw), hostOk)
            == ResolvePostIdForSlug(existing, url, raw, hostOk)
  {
    if raw.Some? && Strip(raw.value) != "" {
      CanonicalKeepsMeaning(raw.value);
    }
  }

  /** An existing post is given up exactly when its URL has a slug and a
      non-blank different one is asked for. */
  lemma GivesUpExactly<Id>(id: Id, url: Option<string>, raw: Option<string>, hostOk: string -> bool)
    ensures ResolvePostIdForSlug(Some(id), url, raw, hostOk) == None <==>
            && SlugFromUrl(url, hostOk).Some?
            && raw.Some? && Strip(raw.value) != ""
            && CanonicalizeSlug(raw) != Some(Quote(SlugFromUrl(url, hostOk).value))
  {
    if raw.Some? && Strip(raw.value) != "" {
      CanonicalKeepsMeaning(raw.value);
      if SlugFromUrl(url, hostOk).Some? {
        UnquoteQuoted(SlugFromUrl(url, hostOk).value);
      }
    }
  }

  // --------------------------------- a URL that ends in the canonical slug

  lemma {:induction false} AfterLastSlashOf(dir: string, seg: string)
    requires forall i :: 0 <= i < |seg| ==> seg[i] != '/'
    ensures AfterLastSlash(dir + "/" + seg) == seg
    decreases |seg|
  {
    var s := dir + "/" + seg;
    if seg == "" {
      assert s[|s| - 1] == '/';
    } else {
      var init, last := seg[..|seg| - 1], seg[|seg| - 1];
      AfterLastSlashOf(dir, init);
      assert s[..|s| - 1] == dir + "/" + init && s[|s| - 1] == last;
      assert seg == init + [last];
    }
  }

  lemma {:induction false} TrimSlashesOf(s: string, slashes: string)
    requires s != "" && s[|s| - 1] != '/'
    requires forall i :: 0 <= i < |slashes| ==> slashes[i] == '/'
    ensures TrimSlashes(s + slashes) == s
    decreases |slashes|
  {
    if slashes == "" {
      assert s + slashes == s;
    } else {
      TrimSlashesOf(s, slashes[..|slashes| - 1]);
      assert (s + slashes)[..|s + slashes| - 1] == s + slashes[..|slashes| - 1];
    }
  }

  lemma LastSegmentOf(dir: string, seg: string, slashes: string)
    requires seg != "" && forall i :: 0 <= i < |seg| ==> seg[i] != '/'
    requires forall i :: 0 <= i < |slashes| ==> slashes[i] == '/'
    ensures LastSegment(dir + "/" + seg + slashes) == Some(seg)
  {
    TrimSlashesOf(dir + "/" + seg, slashes);
    AfterLastSlashOf(dir, seg);
  }

  lemma SegmentIsSlug(url: string, path: string, seg: string, hostOk: string -> bool)
    requires url != "" && SlugPath(url, hostOk) == Some(path) && LastSegment(path) == Some(seg)
    ensures SlugFromUrl(Some(url), hostOk) == Some(Unquote(seg))
  {
  }

  /** If the path of the existing URL ends in the canonical slug `c`, with or
      without closing slashes, the post keeps its id. */
  lemma UrlEndingInSlugKeepsId<Id>(existing: Option<Id>, url: string, raw: string, c: string, hostOk: string -> bool,
                                   dir: string, slashes: string)
    requires url != "" && CanonicalizeSlug(Some(raw)) == Some(c)
    requires forall i :: 0 <= i < |slashes| ==> slashes[i] == '/'
    requires SlugPath(url, hostOk) == Some(dir + "/" + c + slashes)
    ensures ResolvePostIdForSlug(existing, Some(url), Some(raw), hostOk) == existing
  {
    CanonicalKeepsMeaning(raw);
    EncodedHasNoSlash(c);
    LastSegmentOf(dir, c, slashes);
    SegmentIsSlug(url, dir + "/" + c + slashes, c, hostOk);
  }

  lemma EncodedHasNoSlash(c: string)
    requires Encoded(c)
    ensures forall i :: 0 <= i < |c| ==> c[i] !in "/?#\t\r\n"
  {
  }

  /** A path or tail without line breaks, and free of the given delimiters. */
  predicate Plain(s: string, without: string) {
    forall i :: 0 <= i < |s| ==> s[i] !in "\t\r\n" && s[i] !in without
  }

  lemma {:induction false} RemoveBreaksPlain(s: string, without: string)
    requires Plain(s, without)
    ensures RemoveBreaks(s) == s
  {
    if s != "" {
      RemoveBreaksPlain(s[1..], without);
    }
  }

  lemma {:induction false} BeforeSplit(s: string, tail: string, stops: string)
    requires forall i :: 0 <= i < |s| ==> s[i] !in stops
    requires tail == "" || tail[0] in stops
    ensures Before(s + tail, stops) == s
  {
    if s == "" {
      assert s + tail == tail;
    } else {
      assert (s + tail)[1..] == s[1..] + tail;
      BeforeSplit(s[1..], tail, stops);
    }
  }

  lemma {:induction false} ContainsInside(pre: string, needle: string, rest: string)
    ensures Contains(pre + (needle + rest), needle)
  {
    if pre == "" {
      assert pre + (needle + rest) == needle + rest;
    } else {
      assert (pre + (needle + rest))[1..] == pre[1..] + (needle + rest);
      ContainsInside(pre[1..], needle, rest);
    }
  }

  lemma DropHttps(rest: string)
    ensures DropScheme("https" + (":" + rest)) == rest
  {
    var url := "https" + (":" + rest);
    BeforeSplit("https", ":" + rest, ":");
    assert url[|"https"| + 1..] == rest;
  }

  lemma HostThenPath(host: string, path: string, hostOk: string -> bool, s: string)
    requires Plain(host, "/?#") && hostOk(host)
    requires Plain(path, "?#") && (path == "" || path[0] == '/')
    requires DropScheme(RemoveBreaks(DropControls(s))) == "//" + (host + path)
    ensures UrlPath(s, hostOk) == Some(path)
  {
    var t := "//" + (host + path);
    assert t[2..] == host + path;
    BeforeSplit(host, path, "/?#");
    assert t[2 + |host|..] == path;
    BeforeSplit(path, "", "#");
    BeforeSplit(path, "", "?");
    assert path + "" == path;
  }

  /** The path of an absolute web address. */
  lemma AbsoluteUrlPath(host: string, path: string, hostOk: string -> bool)
    requires Plain(host, "/?#") && hostOk(host)
    requires Plain(path, "?#") && (path == "" || path[0] == '/')
    ensures SlugPath("https://" + (host + path), hostOk) == Some(path)
  {
    var rest := "//" + (host + path);
    var url := "https://" + (host + path);
    assert url == "https" + (":" + rest) == "https" + ("://" + (host + path));
    ContainsInside("https", "://", host + path);
    RemoveBreaksPlain(url, "?#");
    DropHttps(rest);
    HostThenPath(host, path, hostOk, url);
  }

  lemma SlugPathIsPlain(dir: string, c: string)
    requires Plain(dir, "?#") && (dir == "" || dir[0] == '/') && Encoded(c)
    ensures Plain(dir + "/" + c + "/", "?#") && (dir + "/" + c + "/")[0] == '/'
  {
    EncodedHasNoSlash(c);
  }

  /** So an article published at `https://host/dir/slug/` is overwritten, not
      duplicated, when its own slug is typed again in either form. */
  lemma SameSlugOverwrites<Id>(id: Id, host: string, dir: string, raw: string, c: string, hostOk: string -> bool)
    requires Plain(host, "/?#") && hostOk(host)
    requires Plain(dir, "?#") && (dir == "" || dir[0] == '/')
    requires CanonicalizeSlug(Some(raw)) == Some(c)
    ensures var url := "https://" + (host + (dir + "/" + c + "/"));
            ResolvePostIdForSlug(Some(id), Some(url), Some(raw), hostOk) == Some(id)
  {
    CanonicalKeepsMeaning(raw);
    SlugPathIsPlain(dir, c);
    var path := dir + "/" + c + "/";
    AbsoluteUrlPath(host, path, hostOk);
    UrlEndingInSlugKeepsId(Some(id), "https://" + (host + path), raw, c, hostOk, dir, "/");
  }
}
