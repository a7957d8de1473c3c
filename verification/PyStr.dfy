/**
  Python's `str.strip`, `str.lstrip`, `str.rstrip` and `str.endswith`.
*/
module PyStr {
  import opened Seqs

  /** What `str.isspace` accepts. */
  predicate IsSpace(c: char) {
    var n := c as int;
    0x9 <= n <= 0xD || 0x1C <= n <= 0x20 || n == 0x85 || n == 0xA0 || n == 0x1680 || 0x2000 <= n <= 0x200A
    || n == 0x2028 || n == 0x2029 || n == 0x202F || n == 0x205F || n == 0x3000
  }

  /** The 29 of them, one by one. */
  lemma SpacesListed(c: char)
    ensures IsSpace(c) <==>
              c in {'\t', '\n', '\U{B}', '\U{C}', '\r', '\U{1C}', '\U{1D}', '\U{1E}', '\U{1F}', ' ', '\U{85}',
                    '\U{A0}', '\U{1680}', '\U{2000}', '\U{2001}', '\U{2002}', '\U{2003}', '\U{2004}',
                    '\U{2005}', '\U{2006}', '\U{2007}', '\U{2008}', '\U{2009}', '\U{200A}', '\U{2028}',
                    '\U{2029}', '\U{202F}', '\U{205F}', '\U{3000}'}
  {
    assert c as int as char == c;
  }

  function LStrip(s: string): string {
    if s != "" && IsSpace(s[0]) then LStrip(s[1..]) else s
  }

  function RStrip(s: string): string {
    if s != "" && IsSpace(s[|s| - 1]) then RStrip(s[..|s| - 1]) else s
  }

  function Strip(s: string): string {
    RStrip(LStrip(s))
  }

  /** Trimming stops at a text that begins with something else. */
  lemma {:induction false} LStripUpTo(s: string, t: string)
    requires t != "" && !IsSpace(t[0])
    ensures LStrip(s + t) == LStrip(s) + t
  {
    if s == "" {
      assert s + t == t && LStrip(s) + t == t;
    } else {
      assert (s + t)[1..] == s[1..] + t;
      LStripUpTo(s[1..], t);
    }
  }

  lemma {:induction false} RStripDownTo(s: string, t: string)
    requires s != "" && !IsSpace(s[|s| - 1])
    ensures RStrip(s + t) == s + RStrip(t)
  {
    if t == "" {
      assert s + t == s && s + RStrip(t) == s;
    } else {
      assert (s + t)[..|s + t| - 1] == s + t[..|t| - 1];
      RStripDownTo(s, t[..|t| - 1]);
    }
  }

  /** Both ends trimmed, the middle `p` untouched. */
  lemma StripAround(a: string, p: string, b: string)
    requires p != "" && !IsSpace(p[0]) && !IsSpace(p[|p| - 1])
    ensures Strip(a + (p + b)) == LStrip(a) + (p + RStrip(b))
  {
    LStripUpTo(a, p + b);
    Regroup(LStrip(a), p, b);
    LastOf(LStrip(a), p);
    RStripDownTo(LStrip(a) + p, b);
    Regroup(LStrip(a), p, RStrip(b));
  }

  lemma {:induction false} LStripIsSuffix(s: string)
    ensures |LStrip(s)| <= |s| && LStrip(s) == s[|s| - |LStrip(s)|..]
    ensures LStrip(s) != "" ==> !IsSpace(LStrip(s)[0])
  {
    if s != "" && IsSpace(s[0]) {
      LStripIsSuffix(s[1..]);
    }
  }

  lemma {:induction false} RStripIsPrefix(s: string)
    ensures RStrip(s) <= s
    ensures RStrip(s) != "" ==> !IsSpace(RStrip(s)[|RStrip(s)| - 1])
  {
    if s != "" && IsSpace(s[|s| - 1]) {
      RStripIsPrefix(s[..|s| - 1]);
    }
  }

  predicate EndsWith(s: string, suffix: string) {
    |suffix| <= |s| && s[|s| - |suffix|..] == suffix
  }

  predicate Trimmed(s: string) {
    s == "" || (!IsSpace(s[0]) && !IsSpace(s[|s| - 1]))
  }

  lemma StripKeeps(s: string)
    requires Trimmed(s)
    ensures LStrip(s) == s && RStrip(s) == s
  {
  }

  /** Trimming leaves nothing to trim. */
  lemma StripTrims(s: string)
    ensures Trimmed(Strip(s)) && Strip(Strip(s)) == Strip(s)
  {
    LStripIsSuffix(s);
    RStripIsPrefix(LStrip(s));
  }

  /** Trimming the right never reaches past a character that is no space. */
  lemma {:induction false} RStripStops(s: string)
    requires s != "" && !IsSpace(s[0])
    ensures RStrip(s) != ""
  {
    if IsSpace(s[|s| - 1]) {
      RStripStops(s[..|s| - 1]);
    }
  }

  lemma {:induction false} RStripSpaces(s: string)
    requires forall i :: 0 <= i < |s| ==> IsSpace(s[i])
    ensures RStrip(s) == ""
  {
    if s != "" {
      RStripSpaces(s[..|s| - 1]);
    }
  }

  lemma {:induction false} SpacesOnly(s: string)
    requires LStrip(s) == ""
    ensures forall i :: 0 <= i < |s| ==> IsSpace(s[i])
  {
    if s != "" {
      SpacesOnly(s[1..]);
      assert forall i :: 0 < i < |s| ==> s[i] == s[1..][i - 1];
    }
  }

  /** What trims to nothing trims to nothing from either end. */
  lemma BlankStrips(s: string)
    requires Strip(s) == ""
    ensures LStrip(s) == "" && RStrip(s) == ""
  {
    if LStrip(s) != "" {
      LStripIsSuffix(s);
      RStripStops(LStrip(s));
    }
    SpacesOnly(s);
    RStripSpaces(s);
  }
}
