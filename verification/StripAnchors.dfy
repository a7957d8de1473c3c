/**
  Unwrapping of editor annotation anchors before publishing
  (content_tool/wordpress/strip_anchors.py).

  The body is a sequence of markup tokens. One substitution pass pairs every
  anchor opener it meets with the FIRST span closer after it, keeps what lies
  between without rescanning it, and goes on behind that closer; the loop runs
  passes until nothing changes.
*/
module StripAnchors {
  import opened Seqs

  datatype Token =
    | Text(text: string)
    | AnchorOpen(attrs: string)   // <span ... data-comment-id="..." ...> or data-review-id
    | PlainOpen(attrs: string)    // any other <span ...>
    | Close                       // </span>
    | OtherTag(raw: string)

  predicate IsContent(t: Token) {
    t.Text? || t.PlainOpen? || t.OtherTag?
  }

  /** Index of the first span closer, or the length when there is none. */
  function FirstClose(ts: seq<Token>): (j: nat)
    ensures j <= |ts|
    ensures forall k :: 0 <= k < j ==> ts[k] != Close
    ensures j < |ts| ==> ts[j] == Close
  {
    if ts == [] || ts[0] == Close then 0 else 1 + FirstClose(ts[1..])
  }

  /** One left-to-right run of the substitution. */
  function Pass(ts: seq<Token>): seq<Token>
    decreases |ts|
  {
    if ts == [] then []
    else if ts[0].AnchorOpen? && FirstClose(ts[1..]) < |ts| - 1 then
      var j := FirstClose(ts[1..]);
      ts[1..][..j] + Pass(ts[1..][j + 1..])
    else [ts[0]] + Pass(ts[1..])
  }

  lemma {:induction false} PassShrinks(ts: seq<Token>)
    ensures |Pass(ts)| <= |ts|
    ensures |Pass(ts)| == |ts| ==> Pass(ts) == ts
    decreases |ts|
  {
    if ts == [] {
    } else if ts[0].AnchorOpen? && FirstClose(ts[1..]) < |ts| - 1 {
      PassShrinks(ts[1..][FirstClose(ts[1..]) + 1..]);
    } else {
      PassShrinks(ts[1..]);
      assert ts == [ts[0]] + ts[1..];
    }
  }

  /** The fixed point of Pass. */
  function Strip(ts: seq<Token>): seq<Token>
    decreases |ts|
  {
    PassShrinks(ts);
    if Pass(ts) == ts then ts else Strip(Pass(ts))
  }

  /** The source's loop: rebind until a pass changes nothing. */
  method StripAnchorSpans(html: seq<Token>) returns (nxt: seq<Token>)
    ensures nxt == Strip(html)
    ensures Pass(nxt) == nxt
  {
    var prev := html;
    nxt := Pass(prev);
    while nxt != prev
      invariant nxt == Pass(prev)
      invariant Strip(prev) == Strip(html)
      decreases |prev|
    {
      PassShrinks(prev);
      prev := nxt;
      nxt := Pass(prev);
    }
  }

  // ------------------------------------------------ what every run keeps

  /** Some anchor opener has a span closer behind it. */
  predicate AnchorThenClose(ts: seq<Token>) {
    ts != [] && ((ts[0].AnchorOpen? && Close in ts[1..]) || AnchorThenClose(ts[1..]))
  }

  lemma {:induction false} FixedPointHasNoClosableAnchor(ts: seq<Token>)
    requires Pass(ts) == ts
    ensures !AnchorThenClose(ts)
    decreases |ts|
  {
    if ts == [] {
    } else if ts[0].AnchorOpen? && FirstClose(ts[1..]) < |ts| - 1 {
      PassShrinks(ts[1..][FirstClose(ts[1..]) + 1..]);
      assert false;
    } else {
      assert Pass(ts)[1..] == Pass(ts[1..]);
      FixedPointHasNoClosableAnchor(ts[1..]);
    }
  }

  /**
    A pass takes out the leftmost anchor opener together with the first closer behind it,
    leaves what stands between them alone, and goes on behind that closer.
  */
  lemma {:induction false} LeftmostAnchorGoes(front: seq<Token>, open: Token, mid: seq<Token>, rest: seq<Token>)
    requires (forall t :: t in front ==> !t.AnchorOpen?) && open.AnchorOpen? && Close !in mid
    ensures Pass(front + ([open] + (mid + ([Close] + rest)))) == front + (mid + Pass(rest))
  {
    var tail := [open] + (mid + ([Close] + rest));
    if front == [] {
      assert front + tail == tail && front + (mid + Pass(rest)) == mid + Pass(rest);
      Head(open, mid + ([Close] + rest));
      CloserBehind(mid, rest);
    } else {
      assert (front + tail)[1..] == front[1..] + tail && (front + tail)[0] == front[0];
      LeftmostAnchorGoes(front[1..], open, mid, rest);
      assert front == [front[0]] + front[1..];
      Regroup([front[0]], front[1..], mid + Pass(rest));
    }
  }

  lemma CloserBehind(mid: seq<Token>, rest: seq<Token>)
    requires Close !in mid
    ensures var s := mid + ([Close] + rest);
            FirstClose(s) == |mid| && s[..|mid|] == mid && s[|mid| + 1..] == rest
  {
    var s := mid + ([Close] + rest);
    assert s[|mid|] == Close && s[..|mid|] == mid;
    assert forall k :: 0 <= k < |mid| ==> s[k] == mid[k];
  }

  /** A text is left as it is exactly when no anchor opener has a closer behind it. */
  lemma {:induction false} NothingGoesExactly(ts: seq<Token>)
    ensures Pass(ts) == ts <==> !AnchorThenClose(ts)
    ensures Strip(ts) == ts <==> !AnchorThenClose(ts)
    decreases |ts|
  {
    if AnchorThenClose(ts) {
      if Pass(ts) == ts {
        FixedPointHasNoClosableAnchor(ts);
      }
      StripIsSafe(ts);
    } else if ts != [] {
      NothingGoesExactly(ts[1..]);
      assert ts == [ts[0]] + ts[1..];
    }
  }

  /** Everything that is neither an anchor opener nor a span closer, in order. */
  function Content(ts: seq<Token>): seq<Token> {
    if ts == [] then []
    else if IsContent(ts[0]) then [ts[0]] + Content(ts[1..])
    else Content(ts[1..])
  }

  lemma {:induction false} ContentConcat(a: seq<Token>, b: seq<Token>)
    ensures Content(a + b) == Content(a) + Content(b)
  {
    if a == [] {
      assert a + b == b;
    } else {
      assert (a + b)[1..] == a[1..] + b && (a + b)[0] == a[0];
      ContentConcat(a[1..], b);
      var rest := Content(a[1..]);
      assert [a[0]] + (rest + Content(b)) == ([a[0]] + rest) + Content(b);
    }
  }

  lemma ContentOfMatch(open: Token, mid: seq<Token>, rest: seq<Token>, passed: seq<Token>)
    requires open.AnchorOpen? && Content(passed) == Content(rest)
    ensures Content(mid + passed) == Content([open] + (mid + ([Close] + rest)))
  {
    ContentConcat(mid, passed);
    ContentConcat(mid, [Close] + rest);
    Head(Close, rest);
    Head(open, mid + ([Close] + rest));
  }

  lemma MatchParts(ts: seq<Token>, j: nat)
    requires j + 1 < |ts| && ts[j + 1] == Close
    ensures ts == [ts[0]] + (ts[1..][..j] + ([Close] + ts[1..][j + 1..]))
  {
    assert ts[1..] == ts[1..][..j] + ([Close] + ts[1..][j + 1..]);
  }

  lemma {:induction false} PassKeepsContent(ts: seq<Token>)
    ensures Content(Pass(ts)) == Content(ts)
    decreases |ts|
  {
    if ts == [] {
    } else {
      var tail := ts[1..];
      var j := FirstClose(tail);
      if ts[0].AnchorOpen? && j < |tail| {
        var mid, rest := tail[..j], tail[j + 1..];
        PassKeepsContent(rest);
        ContentOfMatch(ts[0], mid, rest, Pass(rest));
        MatchParts(ts, j);
      } else {
        PassKeepsContent(tail);
        Head(ts[0], Pass(tail));
      }
    }
  }

  /** Anchor openers less span closers. */
  function Excess(ts: seq<Token>): int {
    if ts == [] then 0
    else (if ts[0].AnchorOpen? then 1 else if ts[0] == Close then -1 else 0) + Excess(ts[1..])
  }

  lemma {:induction false} ExcessConcat(a: seq<Token>, b: seq<Token>)
    ensures Excess(a + b) == Excess(a) + Excess(b)
  {
    if a == [] {
      assert a + b == b;
    } else {
      DropAhead(a, b, 1);
      ExcessConcat(a[1..], b);
    }
  }

  lemma {:induction false} PassKeepsExcess(ts: seq<Token>)
    ensures Excess(Pass(ts)) == Excess(ts)
    decreases |ts|
  {
    if ts != [] {
      var tail := ts[1..];
      var j := FirstClose(tail);
      if ts[0].AnchorOpen? && j < |tail| {
        var mid, rest := tail[..j], tail[j + 1..];
        PassKeepsExcess(rest);
        MatchParts(ts, j);
        ExcessConcat(mid, Pass(rest));
        ExcessConcat(mid, [Close] + rest);
        Head(Close, rest);
        Head(ts[0], mid + ([Close] + rest));
      } else {
        PassKeepsExcess(tail);
        Head(ts[0], Pass(tail));
      }
    }
  }

  /** Every opener that goes takes one closer with it, whatever the body. */
  lemma {:induction false} OpenersGoWithClosers(ts: seq<Token>)
    ensures Excess(Strip(ts)) == Excess(ts)
    decreases |ts|
  {
    PassShrinks(ts);
    if Pass(ts) != ts {
      OpenersGoWithClosers(Pass(ts));
      PassKeepsExcess(ts);
    }
  }

  /** For every body, balanced or not: the result has no anchor opener with a
      closer behind it, and text, plain spans and other tags survive in order. */
  lemma {:induction false} StripIsSafe(ts: seq<Token>)
    ensures !AnchorThenClose(Strip(ts))
    ensures Content(Strip(ts)) == Content(ts)
    ensures Strip(Strip(ts)) == Strip(ts)
    decreases |ts|
  {
    PassShrinks(ts);
    PassKeepsContent(ts);
    if Pass(ts) == ts {
      FixedPointHasNoClosableAnchor(ts);
    } else {
      StripIsSafe(Pass(ts));
    }
  }

  // ------------------------------------------- balanced bodies, one sweep

  /** Span nesting never drops below zero and ends at zero. */
  predicate Balanced(ts: seq<Token>, depth: nat) {
    if ts == [] then depth == 0
    else if ts[0] == Close then depth > 0 && Balanced(ts[1..], depth - 1)
    else if ts[0].AnchorOpen? || ts[0].PlainOpen? then Balanced(ts[1..], depth + 1)
    else Balanced(ts[1..], depth)
  }

  /** The closed form: one sweep that counts anchors still waiting for a closer
      and lets every waiting anchor swallow the next closer, whoever owns it. */
  function Sweep(ts: seq<Token>, waiting: nat): seq<Token> {
    if ts == [] then []
    else if ts[0].AnchorOpen? then Sweep(ts[1..], waiting + 1)
    else if ts[0] == Close && waiting > 0 then Sweep(ts[1..], waiting - 1)
    else [ts[0]] + Sweep(ts[1..], waiting)
  }

  /** Dropping a waiting anchor's opener here and the next closer there leaves
      the sweep, and balance, as they were. */
  lemma {:induction false} DropPair(mid: seq<Token>, rest: seq<Token>, waiting: nat, depth: nat)
    requires Close !in mid
    ensures Sweep(mid + [Close] + rest, waiting + 1) == Sweep(mid + rest, waiting)
    ensures Balanced(mid + [Close] + rest, depth + 1) == Balanced(mid + rest, depth)
    decreases |mid|
  {
    if mid == [] {
      assert mid + [Close] + rest == [Close] + rest;
      assert ([Close] + rest)[1..] == rest;
      assert mid + rest == rest;
    } else {
      assert (mid + [Close] + rest)[1..] == mid[1..] + [Close] + rest;
      assert (mid + rest)[1..] == mid[1..] + rest;
      DropPair(mid[1..], rest, if mid[0].AnchorOpen? then waiting + 1 else waiting,
               if mid[0].AnchorOpen? || mid[0].PlainOpen? then depth + 1 else depth);
    }
  }

  /** The anchors and depth met on the way through a close-free stretch. */
  lemma {:induction false} Advance(mid: seq<Token>, a: seq<Token>, b: seq<Token>)
    requires Close !in mid
    requires forall w: nat :: Sweep(a, w) == Sweep(b, w)
    requires forall d: nat :: Balanced(a, d) == Balanced(b, d)
    ensures forall w: nat :: Sweep(mid + a, w) == Sweep(mid + b, w)
    ensures forall d: nat :: Balanced(mid + a, d) == Balanced(mid + b, d)
    decreases |mid|
  {
    if mid == [] {
      assert mid + a == a && mid + b == b;
    } else {
      assert (mid + a)[1..] == mid[1..] + a && (mid + b)[1..] == mid[1..] + b;
      Advance(mid[1..], a, b);
    }
  }

  lemma {:induction false} PassKeepsSweep(ts: seq<Token>)
    ensures forall w: nat :: Sweep(Pass(ts), w) == Sweep(ts, w)
    ensures forall d: nat :: Balanced(Pass(ts), d) == Balanced(ts, d)
    decreases |ts|
  {
    if ts == [] {
    } else if ts[0].AnchorOpen? && FirstClose(ts[1..]) < |ts| - 1 {
      var j := FirstClose(ts[1..]);
      var mid, rest := ts[1..][..j], ts[1..][j + 1..];
      PassKeepsSweep(rest);
      assert ts[1..] == mid + [Close] + rest;
      Advance(mid, Pass(rest), rest);
      forall w: nat ensures Sweep(Pass(ts), w) == Sweep(ts, w) {
        DropPair(mid, rest, w, 0);
      }
      forall d: nat ensures Balanced(Pass(ts), d) == Balanced(ts, d) {
        DropPair(mid, rest, 0, d);
      }
    } else {
      PassKeepsSweep(ts[1..]);
      assert Pass(ts)[1..] == Pass(ts[1..]);
    }
  }

  lemma {:induction false} BalancedClosesAnchors(ts: seq<Token>, d: nat)
    requires Balanced(ts, d) && !AnchorThenClose(ts)
    ensures forall t :: t in ts ==> !t.AnchorOpen?
    ensures Sweep(ts, 0) == ts
  {
    if ts == [] {
    } else if ts[0].AnchorOpen? {
      DeepNeedsClose(ts[1..], d + 1);
    } else {
      BalancedClosesAnchors(ts[1..], if ts[0] == Close then d - 1 else if ts[0].PlainOpen? then d + 1 else d);
      assert ts == [ts[0]] + ts[1..];
    }
  }

  lemma {:induction false} DeepNeedsClose(ts: seq<Token>, d: nat)
    requires Balanced(ts, d) && d > 0
    ensures Close in ts
  {
    if ts[0] != Close {
      DeepNeedsClose(ts[1..], if ts[0].AnchorOpen? || ts[0].PlainOpen? then d + 1 else d);
    }
  }

  /** The fixed point of a balanced body is the single sweep over it; it is
      balanced again and no anchor is left. */
  lemma {:induction false} BalancedStripIsSweep(ts: seq<Token>)
    requires Balanced(ts, 0)
    ensures Strip(ts) == Sweep(ts, 0)
    ensures Balanced(Strip(ts), 0)
    ensures forall t :: t in Strip(ts) ==> !t.AnchorOpen?
    decreases |ts|
  {
    PassShrinks(ts);
    PassKeepsSweep(ts);
    if Pass(ts) == ts {
      FixedPointHasNoClosableAnchor(ts);
      BalancedClosesAnchors(ts, 0);
    } else {
      BalancedStripIsSweep(Pass(ts));
    }
  }

  // --------------------------------- against unwrapping the matching closer

  /** The open spans, innermost on top. */
  datatype Stack = Empty | Push(anchor: bool, below: Stack)

  function Height(s: Stack): nat {
    if s.Empty? then 0 else 1 + Height(s.below)
  }

  function Anchors(s: Stack): nat {
    if s.Empty? then 0 else (if s.anchor then 1 else 0) + Anchors(s.below)
  }

  /** The anchors among the `low` outermost open spans. */
  function LowAnchors(s: Stack, low: nat): (n: nat)
    ensures n <= Anchors(s)
  {
    if Height(s) <= low then Anchors(s) else LowAnchors(s.below, low)
  }

  /** What "unwrap every anchor span" asks for: drop each anchor opener together
      with its own matching closer. */
  function Unwrap(ts: seq<Token>, open: Stack): seq<Token> {
    if ts == [] then []
    else if ts[0].AnchorOpen? then Unwrap(ts[1..], Push(true, open))
    else if ts[0].PlainOpen? then [ts[0]] + Unwrap(ts[1..], Push(false, open))
    else if ts[0] == Close && open.Push? then
      if open.anchor then Unwrap(ts[1..], open.below) else [Close] + Unwrap(ts[1..], open.below)
    else [ts[0]] + Unwrap(ts[1..], open)
  }

  /** No content follows the closer of a plain span while an anchor around that
      span is still open. A plain span has already been closed inside each of
      the `soiled` outermost open spans. */
  predicate Tidy(ts: seq<Token>, open: Stack, soiled: nat) {
    if ts == [] then true
    else if ts[0].AnchorOpen? then Tidy(ts[1..], Push(true, open), soiled)
    else if ts[0] == Close then
      open.Push? ==>
        Tidy(ts[1..], open.below,
             if open.anchor && soiled <= Height(open.below) then soiled else Height(open.below))
    else
      && LowAnchors(open, soiled) == 0
      && Tidy(ts[1..], if ts[0].PlainOpen? then Push(false, open) else open, soiled)
  }

  /** `rest` behind n span closers. */
  function Owing(n: nat, rest: seq<Token>): seq<Token> {
    if n == 0 then rest else [Close] + Owing(n - 1, rest)
  }

  lemma OwesNothing(rest: seq<Token>)
    ensures Owing(0, rest) == rest
  {
  }

  lemma {:induction false} OwingOneMore(n: nat, rest: seq<Token>)
    ensures Owing(n, [Close] + rest) == Owing(n + 1, rest)
  {
    if n > 0 {
      OwingOneMore(n - 1, rest);
    }
  }

  lemma SameHead(t: Token, a: seq<Token>, b: seq<Token>)
    ensures [t] + a == [t] + b <==> a == b
  {
    Head(t, a);
    Head(t, b);
  }

  lemma OwesACloser(t: Token, a: seq<Token>, n: nat, rest: seq<Token>)
    requires t != Close && n > 0
    ensures [t] + a != Owing(n, rest)
  {
    Head(t, a);
    Head(Close, Owing(n - 1, rest));
  }

  /** The single sweep has swallowed a closer for all but `waiting` of the open
      anchors; every one it swallowed too early lies in a soiled span. */
  predicate InStep(open: Stack, waiting: nat, soiled: nat) {
    && soiled <= Height(open)
    && waiting <= Anchors(open) <= waiting + LowAnchors(open, soiled)
    && (LowAnchors(open, soiled) > 0 ==> waiting < Anchors(open))
  }

  /** The single sweep owes the closers that Unwrap has already written. From
      here on the two agree exactly when no content comes while closers are owed. */
  lemma {:induction false} SweepAgainstUnwrap(ts: seq<Token>, open: Stack, waiting: nat, soiled: nat)
    requires Balanced(ts, Height(open)) && InStep(open, waiting, soiled)
    ensures Tidy(ts, open, soiled) <==>
            Sweep(ts, waiting) == Owing(Anchors(open) - waiting, Unwrap(ts, open))
    decreases |ts|, 1
  {
    if ts == [] {
    } else if ts[0].AnchorOpen? {
      SweepAgainstUnwrap(ts[1..], Push(true, open), waiting + 1, soiled);
    } else if ts[0] == Close {
      CloseStep(ts, open, waiting, soiled);
    } else {
      ContentStep(ts, open, waiting, soiled);
    }
  }

  lemma InStepWaits(open: Stack, waiting: nat, soiled: nat)
    requires InStep(open, waiting, soiled)
    ensures waiting <= Anchors(open)
  {
  }

  lemma InStepInside(open: Stack, waiting: nat, soiled: nat)
    requires InStep(open, waiting, soiled)
    ensures InStep(Push(false, open), waiting, soiled)
    ensures LowAnchors(open, soiled) > 0 <==> waiting < Anchors(open)
  {
  }

  lemma {:induction false} ContentStep(ts: seq<Token>, open: Stack, waiting: nat, soiled: nat)
    requires ts != [] && IsContent(ts[0])
    requires Balanced(ts, Height(open)) && InStep(open, waiting, soiled)
    ensures Tidy(ts, open, soiled) <==>
            Sweep(ts, waiting) == Owing(Anchors(open) - waiting, Unwrap(ts, open))
    decreases |ts|, 0
  {
    hide InStep, Owing;
    var open' := if ts[0].PlainOpen? then Push(false, open) else open;
    var a, b := Sweep(ts[1..], waiting), Unwrap(ts[1..], open');
    InStepInside(open, waiting, soiled);
    if waiting < Anchors(open) {
      OwesACloser(ts[0], a, Anchors(open) - waiting, Unwrap(ts, open));
    } else {
      InStepWaits(open, waiting, soiled);
      OwesNothing(b);
      OwesNothing(Unwrap(ts, open));
      SweepAgainstUnwrap(ts[1..], open', waiting, soiled);
      SameHead(ts[0], a, b);
    }
  }

  lemma InStepOutside(open: Stack, waiting: nat, soiled: nat)
    requires InStep(open, waiting, soiled) && open.Push?
    ensures InStep(open.below, if waiting > 0 then waiting - 1 else 0,
                   if open.anchor && soiled <= Height(open.below) then soiled else Height(open.below))
  {
  }

  lemma {:induction false} CloseStep(ts: seq<Token>, open: Stack, waiting: nat, soiled: nat)
    requires ts != [] && ts[0] == Close
    requires Balanced(ts, Height(open)) && InStep(open, waiting, soiled)
    ensures Tidy(ts, open, soiled) <==>
            Sweep(ts, waiting) == Owing(Anchors(open) - waiting, Unwrap(ts, open))
    decreases |ts|, 0
  {
    var below := open.below;
    var soiled' := if open.anchor && soiled <= Height(below) then soiled else Height(below);
    var waiting' := if waiting > 0 then waiting - 1 else 0;
    InStepOutside(open, waiting, soiled);
    SweepAgainstUnwrap(ts[1..], below, waiting', soiled');
    var a, rest, owed := Sweep(ts[1..], waiting'), Unwrap(ts[1..], below), Anchors(below) - waiting';
    assert Sweep(ts, waiting) == if waiting > 0 then a else [Close] + a;
    assert Unwrap(ts, open) == if open.anchor then rest else [Close] + rest;
    if !open.anchor {
      OwingOneMore(if waiting == 0 then owed else owed - 1, rest);
    }
    if waiting == 0 {
      SameHead(Close, a, Owing(owed, rest));
    }
  }

  /** For balanced bodies the published text unwraps exactly the anchors, each
      with its own closer, if and only if the body is tidy. */
  lemma StripUnwrapsExactlyWhenTidy(ts: seq<Token>)
    requires Balanced(ts, 0)
    ensures Strip(ts) == Unwrap(ts, Empty) <==> Tidy(ts, Empty, 0)
  {
    BalancedStripIsSweep(ts);
    SweepAgainstUnwrap(ts, Empty, 0, 0);
  }

  /** The failing family's smallest shape: a plain span inside an anchor with
      text behind it is stretched over that text. */
  lemma PlainSpanStretched(c: string, b: string, x: string, y: string)
    ensures var ts := [AnchorOpen(c)] + ([PlainOpen(b)] + ([Text(x)] + ([Close] + [Text(y), Close])));
            && Balanced(ts, 0)
            && Strip(ts) == [PlainOpen(b)] + ([Text(x)] + [Text(y), Close])
            && Strip(ts) != Unwrap(ts, Empty)
  {
    var t4 := [Text(y), Close];
    var t3 := [Close] + t4;
    var t2 := [Text(x)] + t3;
    var t1 := [PlainOpen(b)] + t2;
    var ts := [AnchorOpen(c)] + t1;
    Head(AnchorOpen(c), t1); Head(PlainOpen(b), t2); Head(Text(x), t3); Head(Close, t4);
    StretchedTail(y);
    assert Balanced(t3, 2) && Sweep(t3, 1) == t4 && !Tidy(t3, Push(false, Push(true, Empty)), 0);
    assert Balanced(t2, 2) && Sweep(t2, 1) == [Text(x)] + t4 && !Tidy(t2, Push(false, Push(true, Empty)), 0);
    assert Balanced(t1, 1) && Sweep(t1, 1) == [PlainOpen(b)] + ([Text(x)] + t4) && !Tidy(t1, Push(true, Empty), 0);
    assert Balanced(ts, 0) && !Tidy(ts, Empty, 0);
    BalancedStripIsSweep(ts);
    StripUnwrapsExactlyWhenTidy(ts);
  }

  lemma StretchedTail(y: string)
    ensures var t4 := [Text(y), Close];
            Balanced(t4, 1) && Sweep(t4, 0) == t4 && !Tidy(t4, Push(true, Empty), 1)
  {
    var t4 := [Text(y), Close];
    assert t4[1..] == [Close] && [Close][1..] == [];
    assert Balanced([Close], 1) && Sweep([Close], 0) == [Close];
  }
}
