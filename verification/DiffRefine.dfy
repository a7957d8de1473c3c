/**
  Refining a diff of FAQ items (web/lib/faq-diff.ts): a run of removed items followed
  by a run of added ones is paired up greedily, and each pair is diffed inside.
*/
module DiffRefine {
  import opened Wrappers
  import opened Seqs
  import FaqWidget

  datatype Kind = Kept | Added | Removed

  /** A stretch of tokens; `Added` is in the working text only, `Removed` in the committed text only. */
  datatype Part = Part(kind: Kind, value: seq<string>)

  // ----------------------------------------------------------- the two sides

  function Text(tokens: seq<string>): string {
    if tokens == [] then "" else tokens[0] + Text(tokens[1..])
  }

  function Side(parts: seq<Part>, other: Kind): string {
    if parts == [] then ""
    else (if parts[0].kind == other then "" else Text(parts[0].value)) + Side(parts[1..], other)
  }

  /** What the baseline holds. */
  function Committed(parts: seq<Part>): string {
    Side(parts, Added)
  }

  /** What the editor holds. */
  function Working(parts: seq<Part>): string {
    Side(parts, Removed)
  }

  // -------------------------------------------------------------- similarity

  predicate IsSpace(c: char) {
    var n := c as int;
    0x9 <= n <= 0xD || n == 0x20 || n == 0xA0 || n == 0x1680 || 0x2000 <= n <= 0x200A || n == 0x2028 || n == 0x2029
    || n == 0x202F || n == 0x205F || n == 0x3000 || n == 0xFEFF
  }

  /** The words of `word + s`, `word` being the beginning of one. */
  function Words(word: string, s: string): set<string>
    decreases |s|
  {
    var done := if word == "" then {} else {word};
    if s == "" then done
    else if IsSpace(s[0]) then done + Words("", s[1..])
    else Words(word + [s[0]], s[1..])
  }

  function ItemWords(atom: string): set<string> {
    var f := FaqWidget.ParseFaqItemHtml(atom);
    Words("", f.q + " " + f.a)
  }

  /** Shared words over all words. */
  function Jaccard(a: set<string>, b: set<string>): (r: real)
    ensures 0.0 <= r <= 1.0
  {
    var union := if |a + b| == 0 then 1 else |a + b|;
    SharedAtMostAll(a, b);
    Ratio(|a * b|, union);
    |a * b| as real / union as real
  }

  lemma SharedAtMostAll(a: set<string>, b: set<string>)
    ensures |a * b| <= |a + b|
  {
    Fewer(a * b, a + b);
  }

  lemma {:induction false} Fewer(a: set<string>, b: set<string>)
    requires a <= b
    ensures |a| <= |b|
  {
    if a != {} {
      var x :| x in a;
      Fewer(a - {x}, b - {x});
    }
  }

  lemma Ratio(a: nat, b: nat)
    requires a <= b && b > 0
    ensures 0.0 <= a as real / b as real <= 1.0
  {
  }

  function FaqItemSimilarity(committedAtom: string, workingAtom: string): real {
    Jaccard(ItemWords(committedAtom), ItemWords(workingAtom))
  }

  /** Two atoms are compared by the words of the pairs they were made from. */
  lemma SimilarityOfAtoms(c: FaqWidget.Faq, w: FaqWidget.Faq)
    requires FaqWidget.Readable(c) && FaqWidget.Readable(w)
    ensures FaqItemSimilarity(FaqWidget.CanonicalFaqItemHtml(c.q, c.a), FaqWidget.CanonicalFaqItemHtml(w.q, w.a))
            == Jaccard(Words("", c.q + " " + c.a), Words("", w.q + " " + w.a))
  {
    FaqWidget.AtomIsRead(c);
    FaqWidget.AtomIsRead(w);
  }

  // -------------------------------------------------------------- best match

  const THRESHOLD := 0.4

  type Score = (string, string) -> real

  /**
    What the refinement is given: the inner diff, and for the source `FaqItemSimilarity`
    and `FaqWidget.IsFaqItemAtom`.
  */
  datatype Tools = Tools(sub: (string, string) -> seq<Part>, score: Score, isAtom: string -> bool)

  /** The scan over the added items: later ones win ties. */
  function BestFrom(item: string, added: seq<string>, used: set<nat>, score: Score,
                    j: nat, best: int, bestScore: real): int
    requires j <= |added|
    decreases |added| - j
  {
    if j == |added| then best
    else if j !in used && score(item, added[j]) >= bestScore then
      BestFrom(item, added, used, score, j + 1, j, score(item, added[j]))
    else BestFrom(item, added, used, score, j + 1, best, bestScore)
  }

  function Best(item: string, added: seq<string>, used: set<nat>, score: Score): int {
    BestFrom(item, added, used, score, 0, -1, THRESHOLD)
  }

  /** An unused item above the threshold that no other unused one beats, the last of its equals. */
  predicate IsBest(item: string, added: seq<string>, used: set<nat>, score: Score, k: nat) {
    && k < |added| && k !in used && score(item, added[k]) >= THRESHOLD
    && (forall j :: 0 <= j < |added| && j !in used ==> score(item, added[j]) <= score(item, added[k]))
    && (forall j :: k < j < |added| && j !in used ==> score(item, added[j]) < score(item, added[k]))
  }

  lemma {:induction false} BestFromSpec(item: string, added: seq<string>, used: set<nat>, score: Score,
                                        j: nat, best: int, bestScore: real)
    requires j <= |added| && -1 <= best < j && bestScore >= THRESHOLD
    requires best >= 0 ==> best !in used && score(item, added[best]) == bestScore
    requires best < 0 ==> bestScore == THRESHOLD
    requires forall i :: 0 <= i < j && i !in used ==>
               score(item, added[i]) <= bestScore && (i > best ==> score(item, added[i]) < bestScore)
    ensures var k := BestFrom(item, added, used, score, j, best, bestScore);
            if k < 0 then k == -1 && forall i :: 0 <= i < |added| && i !in used ==> score(item, added[i]) < THRESHOLD
            else IsBest(item, added, used, score, k)
    decreases |added| - j
  {
    if j < |added| {
      if j !in used && score(item, added[j]) >= bestScore {
        BestFromSpec(item, added, used, score, j + 1, j, score(item, added[j]));
      } else {
        BestFromSpec(item, added, used, score, j + 1, best, bestScore);
      }
    }
  }

  /** The scan finds the best unused item, or there is none above the threshold. */
  lemma BestIsBest(item: string, added: seq<string>, used: set<nat>, score: Score)
    ensures var k := Best(item, added, used, score);
            if k < 0 then k == -1 && forall i :: 0 <= i < |added| && i !in used ==> score(item, added[i]) < THRESHOLD
            else IsBest(item, added, used, score, k)
  {
    BestFromSpec(item, added, used, score, 0, -1, THRESHOLD);
  }

  // -------------------------------------------------------------- refinement

  predicate AllAtoms(tokens: seq<string>, isAtom: string -> bool) {
    tokens != [] && forall i :: 0 <= i < |tokens| ==> isAtom(tokens[i])
  }

  function Leftover(added: seq<string>, used: set<nat>, j: nat): seq<Part>
    requires j <= |added|
    decreases |added| - j
  {
    if j == |added| then []
    else if j in used then Leftover(added, used, j + 1)
    else [Part(Added, [added[j]])] + Leftover(added, used, j + 1)
  }

  /** A removed run beside an added run, with the added items in `used` already paired. */
  function RunParts(removed: seq<string>, added: seq<string>, used: set<nat>, t: Tools): seq<Part> {
    if removed == [] then Leftover(added, used, 0)
    else
      var k := Best(removed[0], added, used, t.score);
      if 0 <= k < |added| then t.sub(removed[0], added[k]) + RunParts(removed[1..], added, used + {k}, t)
      else [Part(Removed, [removed[0]])] + RunParts(removed[1..], added, used, t)
  }

  predicate IsRun(current: Part, next: Part, t: Tools) {
    current.kind == Removed && AllAtoms(current.value, t.isAtom) && next.kind == Added && AllAtoms(next.value, t.isAtom)
  }

  function Refine(parts: seq<Part>, t: Tools): seq<Part> {
    if parts == [] then []
    else if |parts| > 1 && IsRun(parts[0], parts[1], t) then
      RunParts(parts[0].value, parts[1].value, {}, t) + Refine(parts[2..], t)
    else [parts[0]] + Refine(parts[1..], t)
  }

  /** The inner scan of `refineFaqItemEdits`. */
  method FindBest(item: string, added: seq<string>, used: set<nat>, score: Score) returns (bestIndex: int)
    ensures bestIndex == Best(item, added, used, score)
    ensures bestIndex >= 0 ==> IsBest(item, added, used, score, bestIndex)
    ensures bestIndex < 0 ==> forall j :: 0 <= j < |added| && j !in used ==> score(item, added[j]) < THRESHOLD
  {
    BestIsBest(item, added, used, score);
    bestIndex := -1;
    var bestScore := THRESHOLD;
    for j := 0 to |added|
      invariant BestFrom(item, added, used, score, j, bestIndex, bestScore) == Best(item, added, used, score)
    {
      if j in used {
        continue;
      }
      var s := score(item, added[j]);
      if s >= bestScore {
        bestScore := s;
        bestIndex := j;
      }
    }
  }

  /** One removed run and the added run behind it. */
  method RefineRun(removed: seq<string>, added: seq<string>, t: Tools, pushed: seq<Part>)
    returns (out: seq<Part>)
    ensures out == pushed + RunParts(removed, added, {}, t)
  {
    out := pushed;
    var usedAdded: set<nat> := {};
    ghost var all := pushed + RunParts(removed, added, {}, t);
    for i := 0 to |removed|
      invariant out + RunParts(removed[i..], added, usedAdded, t) == all
    {
      assert removed[i..][0] == removed[i] && removed[i..][1..] == removed[i + 1..];
      var bestIndex := FindBest(removed[i], added, usedAdded, t.score);
      var more := if bestIndex >= 0 then t.sub(removed[i], added[bestIndex]) else [Part(Removed, [removed[i]])];
      if bestIndex >= 0 {
        usedAdded := usedAdded + {bestIndex};
      }
      Regroup(out, more, RunParts(removed[i + 1..], added, usedAdded, t));
      out := out + more;
    }
    for j := 0 to |added|
      invariant out + Leftover(added, usedAdded, j) == all
    {
      if j !in usedAdded {
        Regroup(out, [Part(Added, [added[j]])], Leftover(added, usedAdded, j + 1));
        out := out + [Part(Added, [added[j]])];
      }
    }
  }

  /** `refineFaqItemEdits`. */
  method RefineFaqItemEdits(parts: seq<Part>, t: Tools) returns (out: seq<Part>)
    ensures out == Refine(parts, t)
  {
    out := [];
    var i := 0;
    while i < |parts|
      invariant i <= |parts|
      invariant out + Refine(parts[i..], t) == Refine(parts, t)
    {
      var rest := parts[i..];
      if i + 1 < |parts| && IsRun(parts[i], parts[i + 1], t) {
        assert rest[0] == parts[i] && rest[1] == parts[i + 1] && rest[2..] == parts[i + 2..];
        Regroup(out, RunParts(parts[i].value, parts[i + 1].value, {}, t), Refine(parts[i + 2..], t));
        out := RefineRun(parts[i].value, parts[i + 1].value, t, out);
        i := i + 2;
      } else {
        assert rest[0] == parts[i] && rest[1..] == parts[i + 1..];
        Regroup(out, [parts[i]], Refine(parts[i + 1..], t));
        out := out + [parts[i]];
        i := i + 1;
      }
    }
  }

  // --------------------------------------------------- what stands in a run

  function Flat<T>(ss: seq<seq<T>>): seq<T> {
    if ss == [] then [] else ss[0] + Flat(ss[1..])
  }

  lemma FlatCons<T>(s: seq<T>, ss: seq<seq<T>>)
    ensures Flat([s] + ss) == s + Flat(ss)
  {
    assert ([s] + ss)[1..] == ss;
  }

  /** The added items that the first removed items are paired with. */
  function Taken(pair: seq<Option<nat>>): set<nat> {
    set o | o in pair && o.Some? :: o.value
  }

  /** `pair[i]` is the best match of the i-th removed item among those not taken before,
      or none of these reaches the threshold. */
  predicate IsPairing(removed: seq<string>, added: seq<string>, used: set<nat>, score: Score, pair: seq<Option<nat>>) {
    && |pair| == |removed|
    && forall i :: 0 <= i < |removed| ==> PairedAt(removed[i], added, used + Taken(pair[..i]), score, pair[i])
  }

  predicate PairedAt(item: string, added: seq<string>, used: set<nat>, score: Score, o: Option<nat>) {
    match o
    case Some(k) => IsBest(item, added, used, score, k)
    case None => forall j :: 0 <= j < |added| && j !in used ==> score(item, added[j]) < THRESHOLD
  }

  lemma TakenCons(o: Option<nat>, pair: seq<Option<nat>>)
    ensures Taken([o] + pair) == (if o.Some? then {o.value} else {}) + Taken(pair)
  {
    assert forall x :: x in [o] + pair <==> x == o || x in pair;
  }

  lemma PairingCons(removed: seq<string>, added: seq<string>, used: set<nat>, score: Score,
                    o: Option<nat>, pair: seq<Option<nat>>)
    requires removed != [] && PairedAt(removed[0], added, used, score, o)
    requires IsPairing(removed[1..], added, used + (if o.Some? then {o.value} else {}), score, pair)
    ensures IsPairing(removed, added, used, score, [o] + pair)
  {
    hide PairedAt;
    var all, first := [o] + pair, if o.Some? then {o.value} else {};
    forall i | 0 <= i < |removed|
      ensures PairedAt(removed[i], added, used + Taken(all[..i]), score, all[i])
    {
      if i == 0 {
        assert all[..0] == [] && Taken([]) == {} && used + {} == used;
      } else {
        assert all[..i] == [o] + pair[..i - 1] && removed[i] == removed[1..][i - 1];
        TakenCons(o, pair[..i - 1]);
        assert used + (first + Taken(pair[..i - 1])) == (used + first) + Taken(pair[..i - 1]);
      }
    }
  }

  /** What stands for one removed item: a paired one diffed inside, another as it was. */
  function Stretch(item: string, added: seq<string>, o: Option<nat>, t: Tools): seq<Part>
    requires o.Some? ==> o.value < |added|
  {
    if o.Some? then t.sub(item, added[o.value]) else [Part(Removed, [item])]
  }

  function Replaced(removed: seq<string>, added: seq<string>, pair: seq<Option<nat>>, t: Tools): seq<seq<Part>>
    requires |pair| == |removed| && forall i :: 0 <= i < |pair| && pair[i].Some? ==> pair[i].value < |added|
  {
    seq(|removed|, i requires 0 <= i < |removed| => Stretch(removed[i], added, pair[i], t))
  }

  /** What stands for the added items from j on: the ones left over. */
  function LeftOver(added: seq<string>, used: set<nat>, j: nat): seq<seq<Part>>
    requires j <= |added|
  {
    seq(|added| - j, i requires 0 <= i < |added| - j => if j + i in used then [] else [Part(Added, [added[j + i]])])
  }

  lemma {:induction false} LeftoverStands(added: seq<string>, used: set<nat>, j: nat)
    requires j <= |added|
    ensures Leftover(added, used, j) == Flat(LeftOver(added, used, j))
    decreases |added| - j
  {
    hide Flat;
    if j == |added| {
      FlatNothing<Part>();
    } else {
      var first := if j in used then [] else [Part(Added, [added[j]])];
      LeftoverStands(added, used, j + 1);
      assert LeftOver(added, used, j) == [first] + LeftOver(added, used, j + 1);
      FlatCons(first, LeftOver(added, used, j + 1));
      assert j in used ==> [] + Leftover(added, used, j + 1) == Leftover(added, used, j + 1);
    }
  }

  lemma FlatNothing<T>()
    ensures Flat<T>([]) == []
  {
  }

  lemma ReplacedCons(removed: seq<string>, added: seq<string>, o: Option<nat>, pair: seq<Option<nat>>, t: Tools)
    requires removed != [] && |pair| == |removed| - 1 && (o.Some? ==> o.value < |added|)
    requires forall i :: 0 <= i < |pair| && pair[i].Some? ==> pair[i].value < |added|
    ensures Replaced(removed, added, [o] + pair, t)
            == [Stretch(removed[0], added, o, t)] + Replaced(removed[1..], added, pair, t)
  {
    assert forall i :: 0 < i < |removed| ==> ([o] + pair)[i] == pair[i - 1] && removed[i] == removed[1..][i - 1];
  }

  /** The first removed item's match, and the run behind it. */
  lemma RunStep(removed: seq<string>, added: seq<string>, used: set<nat>, t: Tools) returns (o: Option<nat>)
    requires removed != []
    ensures PairedAt(removed[0], added, used, t.score, o) && (o.Some? ==> o.value < |added|)
    ensures RunParts(removed, added, used, t)
            == Stretch(removed[0], added, o, t)
               + RunParts(removed[1..], added, used + (if o.Some? then {o.value} else {}), t)
  {
    hide Best;
    var k := Best(removed[0], added, used, t.score);
    BestIsBest(removed[0], added, used, t.score);
    o := if k >= 0 then Some(k as nat) else None;
    assert used + {} == used;
  }

  lemma {:induction false} RunStands(removed: seq<string>, added: seq<string>, used: set<nat>, t: Tools)
    returns (pair: seq<Option<nat>>)
    ensures IsPairing(removed, added, used, t.score, pair) && |pair| == |removed|
    ensures forall i :: 0 <= i < |pair| && pair[i].Some? ==> pair[i].value < |added|
    ensures RunParts(removed, added, used, t)
            == Flat(Replaced(removed, added, pair, t)) + Flat(LeftOver(added, used + Taken(pair), 0))
  {
    hide IsPairing, PairedAt, Replaced, LeftOver, Flat, Stretch, Taken, RunParts;
    if removed == [] {
      pair := [];
      NothingStands(added, used, t);
    } else {
      var o := RunStep(removed, added, used, t);
      var first := if o.Some? then {o.value} else {};
      var rest := RunStands(removed[1..], added, used + first, t);
      pair := [o] + rest;
      PairingCons(removed, added, used, t.score, o, rest);
      TakenCons(o, rest);
      assert used + (first + Taken(rest)) == (used + first) + Taken(rest);
      var head, tail := Stretch(removed[0], added, o, t), Flat(LeftOver(added, used + Taken(pair), 0));
      ReplacedCons(removed, added, o, rest, t);
      FlatCons(head, Replaced(removed[1..], added, rest, t));
      Regroup(head, Flat(Replaced(removed[1..], added, rest, t)), tail);
    }
  }

  lemma NothingStands(added: seq<string>, used: set<nat>, t: Tools)
    ensures IsPairing([], added, used, t.score, [])
    ensures RunParts([], added, used, t)
            == Flat(Replaced([], added, [], t)) + Flat(LeftOver(added, used + Taken([]), 0))
  {
    LeftoverStands(added, used, 0);
    assert used + Taken([]) == used && Replaced([], added, [], t) == [];
  }

  /**
    A refined run, piece by piece: for every removed item in turn the inner diff with its
    best match among the added items not taken before, or the item as a whole removal
    when none reaches the threshold; then the added items nobody took, as whole
    insertions, in their order.
  */
  lemma RunIsDiffedInside(removed: seq<string>, added: seq<string>, t: Tools) returns (pair: seq<Option<nat>>)
    ensures |pair| == |removed|
    ensures forall i :: 0 <= i < |removed| ==>
              match pair[i]
              case Some(k) => IsBest(removed[i], added, Taken(pair[..i]), t.score, k)
              case None => forall j :: 0 <= j < |added| && j !in Taken(pair[..i]) ==>
                             t.score(removed[i], added[j]) < THRESHOLD
    ensures RunParts(removed, added, {}, t)
            == Flat(seq(|removed|, i requires 0 <= i < |removed| =>
                      if pair[i].Some? && pair[i].value < |added| then t.sub(removed[i], added[pair[i].value])
                      else [Part(Removed, [removed[i]])]))
             + Flat(seq(|added|, j requires 0 <= j < |added| =>
                      if j in Taken(pair) then [] else [Part(Added, [added[j]])]))
  {
    hide Flat, RunParts, PairedAt, IsPairing, Taken;
    pair := RunStands(removed, added, {}, t);
    PairedFromNothing(removed, added, t.score, pair);
    assert {} + Taken(pair) == Taken(pair);
    assert Replaced(removed, added, pair, t)
        == seq(|removed|, i requires 0 <= i < |removed| =>
             if pair[i].Some? && pair[i].value < |added| then t.sub(removed[i], added[pair[i].value])
             else [Part(Removed, [removed[i]])]);
    assert LeftOver(added, Taken(pair), 0)
        == seq(|added|, j requires 0 <= j < |added| => if j in Taken(pair) then [] else [Part(Added, [added[j]])]);
  }

  lemma PairedFromNothing(removed: seq<string>, added: seq<string>, score: Score, pair: seq<Option<nat>>)
    requires IsPairing(removed, added, {}, score, pair) && |pair| == |removed|
    ensures forall i :: 0 <= i < |removed| ==>
              match pair[i]
              case Some(k) => IsBest(removed[i], added, Taken(pair[..i]), score, k)
              case None => forall j :: 0 <= j < |added| && j !in Taken(pair[..i]) ==>
                             score(removed[i], added[j]) < THRESHOLD
  {
    hide IsBest;
    forall i | 0 <= i < |removed|
      ensures PairedAt(removed[i], added, Taken(pair[..i]), score, pair[i])
    {
      assert {} + Taken(pair[..i]) == Taken(pair[..i]);
    }
  }

  /** One edited item: the inner diff and nothing else. Below the threshold it is left
      as a removal and an insertion. */
  lemma EditIsDiffedInside(r: string, y: string, t: Tools)
    requires t.isAtom(r) && t.isAtom(y)
    ensures Refine([Part(Removed, [r]), Part(Added, [y])], t)
            == if t.score(r, y) >= THRESHOLD then t.sub(r, y) else [Part(Removed, [r]), Part(Added, [y])]
  {
    var parts := [Part(Removed, [r]), Part(Added, [y])];
    assert IsRun(parts[0], parts[1], t) && parts[2..] == [];
    BestIsBest(r, [y], {}, t.score);
    assert [y][0] == y && [r][1..] == [];
    var k := Best(r, [y], {}, t.score);
    assert Refine([], t) == [] && Refine(parts, t) == RunParts([r], [y], {}, t) + [];
    assert Leftover([y], {}, 1) == [] && Leftover([y], {} + {0}, 1) == [];
    if t.score(r, y) >= THRESHOLD {
      assert k == 0 && 0 in {} + {0};
      assert RunParts([r], [y], {}, t) == t.sub(r, y) + RunParts([], [y], {} + {0}, t);
    } else {
      assert k == -1;
      assert RunParts([r], [y], {}, t) == [Part(Removed, [r])] + RunParts([], [y], {}, t);
      assert Leftover([y], {}, 0) == [Part(Added, [y])] + [];
    }
  }

  /** Every run of a diff is refined, wherever it stands. */
  lemma {:induction false} RunsAreRefined(a: seq<Part>, current: Part, next: Part, b: seq<Part>, t: Tools)
    requires IsRun(current, next, t)
    ensures Refine(a + ([current, next] + b), t)
            == Refine(a, t) + (RunParts(current.value, next.value, {}, t) + Refine(b, t))
    decreases |a|
  {
    hide RunParts, IsRun;
    RemovedEndsNoRun(current, next, t);
    var rest := [current, next] + b;
    var run := RunParts(current.value, next.value, {}, t) + Refine(b, t);
    var parts := a + rest;
    if a == [] {
      assert parts == rest && rest[2..] == b;
      assert Refine(a, t) + run == run;
    } else if |a| > 1 && IsRun(a[0], a[1], t) {
      DropAhead(a, rest, 2);
      RunsAreRefined(a[2..], current, next, b, t);
      Regroup(RunParts(a[0].value, a[1].value, {}, t), Refine(a[2..], t), run);
    } else {
      assert |a| == 1 ==> parts[1] == current;
      DropAhead(a, rest, 1);
      RunsAreRefined(a[1..], current, next, b, t);
      Regroup([a[0]], Refine(a[1..], t), run);
    }
  }

  lemma RemovedEndsNoRun(current: Part, next: Part, t: Tools)
    requires IsRun(current, next, t)
    ensures forall p :: !IsRun(p, current, t)
  {
  }

  /** A part that belongs to no run stays what it is. */
  lemma {:induction false} OthersAreKept(a: seq<Part>, p: Part, b: seq<Part>, t: Tools)
    requires a == [] || !IsRun(a[|a| - 1], p, t)
    requires b == [] || !IsRun(p, b[0], t)
    ensures Refine(a + ([p] + b), t) == Refine(a, t) + ([p] + Refine(b, t))
    decreases |a|
  {
    hide RunParts, IsRun;
    var rest, tail := [p] + b, [p] + Refine(b, t);
    var parts := a + rest;
    if a == [] {
      assert parts == rest && rest[1..] == b && (b != [] ==> rest[1] == b[0]);
      assert Refine(a, t) + tail == tail;
    } else if |a| > 1 && IsRun(a[0], a[1], t) {
      DropAhead(a, rest, 2);
      assert |a| > 2 ==> a[2..][|a| - 3] == a[|a| - 1];
      if |a| == 2 {
        NotBoth(a[0], a[1], p, t);
      }
      OthersAreKept(a[2..], p, b, t);
      Regroup(RunParts(a[0].value, a[1].value, {}, t), Refine(a[2..], t), tail);
    } else {
      assert |a| == 1 ==> parts[1] == p;
      DropAhead(a, rest, 1);
      OthersAreKept(a[1..], p, b, t);
      Regroup([a[0]], Refine(a[1..], t), tail);
    }
  }

  /** An added run begins no other run. */
  lemma NotBoth(x: Part, y: Part, z: Part, t: Tools)
    ensures IsRun(x, y, t) ==> !IsRun(y, z, t)
  {
  }

  // ----------------------------------------------------------- what is kept

  ghost predicate Reproduces(t: Tools, a: string, b: string) {
    Committed(t.sub(a, b)) == a && Working(t.sub(a, b)) == b
  }

  /** The inner diff reproduces the two items it is given. */
  ghost predicate Faithful(t: Tools) {
    forall a, b :: Reproduces(t, a, b)
  }

  lemma {:induction false} SideThen(a: seq<Part>, b: seq<Part>, other: Kind)
    ensures Side(a + b, other) == Side(a, other) + Side(b, other)
  {
    if a == [] {
      assert a + b == b;
    } else {
      assert (a + b)[1..] == a[1..] + b;
      SideThen(a[1..], b, other);
    }
  }

  lemma {:induction false} LeftoverCommitted(added: seq<string>, used: set<nat>, j: nat)
    requires j <= |added|
    ensures Committed(Leftover(added, used, j)) == ""
    decreases |added| - j
  {
    if j < |added| {
      LeftoverCommitted(added, used, j + 1);
    }
  }

  lemma OnePart(kind: Kind, item: string, other: Kind)
    ensures Side([Part(kind, [item])], other) == if kind == other then "" else item
  {
    assert [item][1..] == [] && Text([item]) == item + Text([]);
  }

  lemma {:induction false} RunCommitted(removed: seq<string>, added: seq<string>, used: set<nat>, t: Tools)
    requires Faithful(t)
    ensures Committed(RunParts(removed, added, used, t)) == Text(removed)
  {
    if removed == [] {
      LeftoverCommitted(added, used, 0);
    } else {
      var k := Best(removed[0], added, used, t.score);
      if 0 <= k < |added| {
        RunCommitted(removed[1..], added, used + {k}, t);
        assert Reproduces(t, removed[0], added[k]);
        SideThen(t.sub(removed[0], added[k]), RunParts(removed[1..], added, used + {k}, t), Added);
      } else {
        RunCommitted(removed[1..], added, used, t);
        OnePart(Removed, removed[0], Added);
        SideThen([Part(Removed, [removed[0]])], RunParts(removed[1..], added, used, t), Added);
      }
    }
  }

  /** Refining never changes the committed text. */
  lemma {:induction false} CommittedIsKept(parts: seq<Part>, t: Tools)
    requires Faithful(t)
    ensures Committed(Refine(parts, t)) == Committed(parts)
  {
    if parts == [] {
    } else if |parts| > 1 && IsRun(parts[0], parts[1], t) {
      CommittedIsKept(parts[2..], t);
      RunCommitted(parts[0].value, parts[1].value, {}, t);
      SideThen(RunParts(parts[0].value, parts[1].value, {}, t), Refine(parts[2..], t), Added);
      SideOfRun(parts);
    } else {
      CommittedIsKept(parts[1..], t);
      SideThen([parts[0]], Refine(parts[1..], t), Added);
      SideOfOne(parts[0], Added);
    }
  }

  /** What a removed part and an added part contribute to the two sides. */
  lemma SideOfRun(parts: seq<Part>)
    requires |parts| > 1 && parts[0].kind == Removed && parts[1].kind == Added
    ensures Committed(parts) == Text(parts[0].value) + Committed(parts[2..])
    ensures Working(parts) == Text(parts[1].value) + Working(parts[2..])
  {
    assert parts[1..][1..] == parts[2..];
    assert Side(parts[1..], Added) == "" + Side(parts[2..], Added);
    assert Side(parts[1..], Removed) == Text(parts[1].value) + Side(parts[2..], Removed);
  }

  lemma SideOfOne(p: Part, other: Kind)
    ensures Side([p], other) == if p.kind == other then "" else Text(p.value)
  {
    assert [p][1..] == [];
  }

  // -------------------------------------------------- the working side's order

  /** The added items paired with the removed ones, in the order of the latter. */
  function Matched(removed: seq<string>, added: seq<string>, used: set<nat>, score: Score): (m: seq<nat>)
    ensures forall i :: 0 <= i < |m| ==> m[i] < |added|
  {
    if removed == [] then []
    else
      var k := Best(removed[0], added, used, score);
      if 0 <= k < |added| then [k] + Matched(removed[1..], added, used + {k}, score)
      else Matched(removed[1..], added, used, score)
  }

  /** The numbers from `j` to `n` that are not in `used`, going up. */
  function Unused(n: nat, used: set<nat>, j: nat): (u: seq<nat>)
    requires j <= n
    ensures forall i :: 0 <= i < |u| ==> j <= u[i] < n
    decreases n - j
  {
    if j == n then [] else if j in used then Unused(n, used, j + 1) else [j] + Unused(n, used, j + 1)
  }

  function Members(s: seq<nat>): set<nat> {
    set x | x in s
  }

  /** The order in which a run's added items stand afterwards. */
  function RunOrder(removed: seq<string>, added: seq<string>, used: set<nat>, score: Score): (order: seq<nat>)
    ensures forall i :: 0 <= i < |order| ==> order[i] < |added|
  {
    var m := Matched(removed, added, used, score);
    m + Unused(|added|, used + Members(m), 0)
  }

  function Pick(added: seq<string>, order: seq<nat>): (items: seq<string>)
    requires forall i :: 0 <= i < |order| ==> order[i] < |added|
    ensures |items| == |order| && forall i :: 0 <= i < |order| ==> items[i] == added[order[i]]
  {
    seq(|order|, i requires 0 <= i < |order| => added[order[i]])
  }

  lemma PickCons(added: seq<string>, k: nat, order: seq<nat>)
    requires k < |added| && forall i :: 0 <= i < |order| ==> order[i] < |added|
    ensures Pick(added, [k] + order) == [added[k]] + Pick(added, order)
    ensures Text(Pick(added, [k] + order)) == added[k] + Text(Pick(added, order))
  {
    assert ([added[k]] + Pick(added, order))[1..] == Pick(added, order);
  }

  lemma {:induction false} LeftoverWorking(added: seq<string>, used: set<nat>, j: nat)
    requires j <= |added|
    ensures Working(Leftover(added, used, j)) == Text(Pick(added, Unused(|added|, used, j)))
    decreases |added| - j
  {
    if j < |added| {
      LeftoverWorking(added, used, j + 1);
      if j !in used {
        PickCons(added, j, Unused(|added|, used, j + 1));
        OnePart(Added, added[j], Removed);
        SideThen([Part(Added, [added[j]])], Leftover(added, used, j + 1), Removed);
      }
    }
  }

  lemma OrderCons(removed: seq<string>, added: seq<string>, used: set<nat>, score: Score, k: nat)
    requires removed != [] && k < |added| && Best(removed[0], added, used, score) == k
    ensures RunOrder(removed, added, used, score) == [k] + RunOrder(removed[1..], added, used + {k}, score)
  {
    var m := Matched(removed[1..], added, used + {k}, score);
    assert Members([k] + m) == {k} + Members(m);
    assert used + Members([k] + m) == (used + {k}) + Members(m);
  }

  /** A run's working text is its added items, in the order of the pairing. */
  lemma {:induction false} RunWorking(removed: seq<string>, added: seq<string>, used: set<nat>, t: Tools)
    requires Faithful(t)
    ensures Working(RunParts(removed, added, used, t)) == Text(Pick(added, RunOrder(removed, added, used, t.score)))
  {
    if removed == [] {
      LeftoverWorking(added, used, 0);
      assert Members([]) == {} && used + {} == used;
      assert RunOrder(removed, added, used, t.score) == Unused(|added|, used, 0);
    } else {
      var k := Best(removed[0], added, used, t.score);
      if 0 <= k < |added| {
        RunWorking(removed[1..], added, used + {k}, t);
        assert Reproduces(t, removed[0], added[k]);
        SideThen(t.sub(removed[0], added[k]), RunParts(removed[1..], added, used + {k}, t), Removed);
        OrderCons(removed, added, used, t.score, k);
        PickCons(added, k, RunOrder(removed[1..], added, used + {k}, t.score));
      } else {
        RunWorking(removed[1..], added, used, t);
        OnePart(Removed, removed[0], Removed);
        SideThen([Part(Removed, [removed[0]])], RunParts(removed[1..], added, used, t), Removed);
      }
    }
  }

  predicate Distinct(s: seq<nat>) {
    forall i, j :: 0 <= i < j < |s| ==> s[i] != s[j]
  }

  lemma {:induction false} MatchedOnce(removed: seq<string>, added: seq<string>, used: set<nat>, score: Score)
    ensures var m := Matched(removed, added, used, score);
            Distinct(m) && forall k :: k in m ==> k !in used
  {
    if removed != [] {
      var k := Best(removed[0], added, used, score);
      BestIsBest(removed[0], added, used, score);
      if 0 <= k < |added| {
        MatchedOnce(removed[1..], added, used + {k}, score);
        var m := Matched(removed[1..], added, used + {k}, score);
        assert k in used + {k} && k !in m;
      } else {
        MatchedOnce(removed[1..], added, used, score);
      }
    }
  }

  lemma {:induction false} UnusedOnce(n: nat, used: set<nat>, j: nat)
    requires j <= n
    ensures Distinct(Unused(n, used, j))
    ensures forall k :: k in Unused(n, used, j) <==> j <= k < n && k !in used
    decreases n - j
  {
    if j < n {
      UnusedOnce(n, used, j + 1);
    }
  }

  /** Every added item stands exactly once among the parts of its run. */
  lemma EveryItemOnce(removed: seq<string>, added: seq<string>, score: Score)
    ensures var order := RunOrder(removed, added, {}, score);
            Distinct(order) && forall k: nat :: k in order <==> k < |added|
  {
    var m := Matched(removed, added, {}, score);
    MatchedOnce(removed, added, {}, score);
    UnusedOnce(|added|, {} + Members(m), 0);
    var u := Unused(|added|, {} + Members(m), 0);
    forall k: nat
      ensures k in m + u <==> k < |added|
    {
      assert k in m <==> k in {} + Members(m);
    }
    forall i, j | 0 <= i < j < |m + u|
      ensures (m + u)[i] != (m + u)[j]
    {
      if i < |m| <= j {
        assert m[i] in {} + Members(m) && u[j - |m|] in u;
      }
    }
  }

  /** The working text with every run put into the order of its pairing. */
  function Reordered(parts: seq<Part>, t: Tools): string {
    if parts == [] then ""
    else if |parts| > 1 && IsRun(parts[0], parts[1], t) then
      Text(Pick(parts[1].value, RunOrder(parts[0].value, parts[1].value, {}, t.score))) + Reordered(parts[2..], t)
    else (if parts[0].kind == Removed then "" else Text(parts[0].value)) + Reordered(parts[1..], t)
  }

  /** Refining keeps the working text but for the order of the items within each run. */
  lemma {:induction false} WorkingIsReordered(parts: seq<Part>, t: Tools)
    requires Faithful(t)
    ensures Working(Refine(parts, t)) == Reordered(parts, t)
  {
    if parts == [] {
    } else if |parts| > 1 && IsRun(parts[0], parts[1], t) {
      WorkingIsReordered(parts[2..], t);
      RunWorking(parts[0].value, parts[1].value, {}, t);
      SideThen(RunParts(parts[0].value, parts[1].value, {}, t), Refine(parts[2..], t), Removed);
    } else {
      WorkingIsReordered(parts[1..], t);
      SideThen([parts[0]], Refine(parts[1..], t), Removed);
      SideOfOne(parts[0], Removed);
    }
  }

  function Upto(n: nat): (s: seq<nat>)
    ensures |s| == n && forall i :: 0 <= i < n ==> s[i] == i
  {
    seq(n, i requires 0 <= i < n => i)
  }

  /** The paired items are the first ones, in order; what is left over comes last. */
  predicate PairedInOrder(removed: seq<string>, added: seq<string>, score: Score) {
    var m := Matched(removed, added, {}, score);
    m == Upto(|m|)
  }

  lemma {:induction false} UnusedBehind(n: nat, used: set<nat>, j: nat, k: nat)
    requires j <= n && k <= n && forall x: nat :: x in used <==> x < k
    ensures var first := if j < k then k else j;
            var u := Unused(n, used, j);
            |u| == n - first && forall i :: 0 <= i < |u| ==> u[i] == first + i
    decreases n - j
  {
    if j < n {
      UnusedBehind(n, used, j + 1, k);
    }
  }

  /** The items of a run keep their places exactly when they are paired in order. */
  lemma OrderKeptExactly(removed: seq<string>, added: seq<string>, score: Score)
    ensures RunOrder(removed, added, {}, score) == Upto(|added|) <==> PairedInOrder(removed, added, score)
  {
    hide Matched, Unused, Members;
    var m := Matched(removed, added, {}, score);
    var u := Unused(|added|, {} + Members(m), 0);
    if m == Upto(|m|) {
      assert |m| > 0 ==> m[|m| - 1] < |added|;
      MembersUpto(m);
      UnusedBehind(|added|, {} + Members(m), 0, |m|);
      assert m + u == Upto(|added|);
    }
    if m + u == Upto(|added|) {
      assert m == (m + u)[..|m|];
    }
  }

  lemma MembersUpto(m: seq<nat>)
    requires m == Upto(|m|)
    ensures forall x: nat :: x in {} + Members(m) <==> x < |m|
  {
    forall x: nat
      ensures x in {} + Members(m) <==> x < |m|
    {
      assert x < |m| ==> m[x] == x;
    }
  }

  lemma PickAll(added: seq<string>)
    ensures Pick(added, Upto(|added|)) == added
  {
  }

  /** Every run of `parts` is paired in order. */
  predicate RunsInOrder(parts: seq<Part>, t: Tools) {
    if parts == [] then true
    else if |parts| > 1 && IsRun(parts[0], parts[1], t) then
      PairedInOrder(parts[0].value, parts[1].value, t.score) && RunsInOrder(parts[2..], t)
    else RunsInOrder(parts[1..], t)
  }

  /** Then the working text is kept to the letter. */
  lemma {:induction false} WorkingIsKept(parts: seq<Part>, t: Tools)
    requires Faithful(t) && RunsInOrder(parts, t)
    ensures Working(Refine(parts, t)) == Working(parts)
  {
    WorkingIsReordered(parts, t);
    InOrderIsKept(parts, t);
  }

  lemma {:induction false} InOrderIsKept(parts: seq<Part>, t: Tools)
    requires RunsInOrder(parts, t)
    ensures Reordered(parts, t) == Working(parts)
  {
    if parts == [] {
    } else if |parts| > 1 && IsRun(parts[0], parts[1], t) {
      InOrderIsKept(parts[2..], t);
      OrderKeptExactly(parts[0].value, parts[1].value, t.score);
      PickAll(parts[1].value);
      SideOfRun(parts);
    } else {
      InOrderIsKept(parts[1..], t);
    }
  }

  // ------------------------------------------------ kept only when in order

  /** A token that the source makes of a pair without markup. */
  ghost predicate Canonical(token: string) {
    exists f: FaqWidget.Faq :: FaqWidget.Readable(f) && token == FaqWidget.CanonicalFaqItemHtml(f.q, f.a)
  }

  ghost predicate AllCanonical(items: seq<string>) {
    forall i :: 0 <= i < |items| ==> Canonical(items[i])
  }

  /** Whatever stands behind it, such a token is read up to its end. */
  lemma CanonicalEnds(x: string, rest: string)
    requires Canonical(x)
    ensures FaqWidget.CloseFrom(x + rest, 0) == |x|
  {
    hide FaqWidget.CloseFrom, FaqWidget.CanonicalFaqItemHtml, FaqWidget.Readable;
    var f: FaqWidget.Faq :| FaqWidget.Readable(f) && x == FaqWidget.CanonicalFaqItemHtml(f.q, f.a);
    var d := FaqWidget.ItemDiv(false, FaqWidget.TIGHT, f);
    FaqWidget.CanonicalIsItem(f.q, f.a);
    FaqWidget.ItemIsOk(false, FaqWidget.TIGHT, f);
    FaqWidget.MatchFindsTheClose(d, rest);
  }

  /** Equally many such tokens with the same text are the same tokens. */
  lemma {:induction false} CutAlike(xs: seq<string>, ys: seq<string>, a: string, b: string)
    requires |xs| == |ys| && AllCanonical(xs) && AllCanonical(ys)
    requires Text(xs) + a == Text(ys) + b
    ensures xs == ys && a == b
  {
    hide Canonical;
    if xs == [] {
      assert Text(xs) + a == a && Text(ys) + b == b;
    } else {
      var x, y, restX, restY := xs[0], ys[0], Text(xs[1..]) + a, Text(ys[1..]) + b;
      Regroup(x, Text(xs[1..]), a);
      Regroup(y, Text(ys[1..]), b);
      CanonicalEnds(x, restX);
      CanonicalEnds(y, restY);
      assert (x + restX)[..|x|] == x && (y + restY)[..|y|] == y;
      assert (x + restX)[|x|..] == restX && (y + restY)[|y|..] == restY;
      CutAlike(xs[1..], ys[1..], a, b);
      assert xs == [x] + xs[1..] && ys == [y] + ys[1..];
    }
  }

  lemma {:induction false} DistinctSize(s: seq<nat>)
    requires Distinct(s)
    ensures |Members(s)| == |s|
  {
    if s != [] {
      var init, last := s[..|s| - 1], s[|s| - 1];
      DistinctSize(init);
      assert Members(s) == Members(init) + {last};
      assert last !in Members(init);
    }
  }

  lemma OrderLength(removed: seq<string>, added: seq<string>, score: Score)
    ensures |RunOrder(removed, added, {}, score)| == |added|
  {
    hide RunOrder;
    var order := RunOrder(removed, added, {}, score);
    EveryItemOnce(removed, added, score);
    DistinctSize(order);
    DistinctSize(Upto(|added|));
    forall k: nat
      ensures k in Members(order) <==> k in Members(Upto(|added|))
    {
      assert k < |added| ==> Upto(|added|)[k] == k;
    }
    assert Members(order) == Members(Upto(|added|));
  }

  predicate DistinctItems(items: seq<string>) {
    forall i, j :: 0 <= i < j < |items| ==> items[i] != items[j]
  }

  /** The items of a run, put into another order, are the same only in the same order. */
  lemma SamePlaces(added: seq<string>, order: seq<nat>)
    requires DistinctItems(added) && |order| == |added| && forall i :: 0 <= i < |order| ==> order[i] < |added|
    ensures Pick(added, order) == added <==> order == Upto(|added|)
  {
    PickAll(added);
    if Pick(added, order) == added {
      forall i | 0 <= i < |order|
        ensures order[i] == i
      {
        assert added[order[i]] == added[i];
      }
    }
  }

  /** The added items of every run are different tokens made of pairs without markup. */
  ghost predicate RunsCanonical(parts: seq<Part>, t: Tools) {
    if parts == [] then true
    else if |parts| > 1 && IsRun(parts[0], parts[1], t) then
      AllCanonical(parts[1].value) && DistinctItems(parts[1].value) && RunsCanonical(parts[2..], t)
    else RunsCanonical(parts[1..], t)
  }

  lemma RunIsCut(removed: seq<string>, added: seq<string>, score: Score, a: string, b: string)
    requires AllCanonical(added) && DistinctItems(added)
    ensures Text(Pick(added, RunOrder(removed, added, {}, score))) + a == Text(added) + b
            <==> PairedInOrder(removed, added, score) && a == b
  {
    hide Canonical, RunOrder, PairedInOrder, Text;
    var order := RunOrder(removed, added, {}, score);
    OrderLength(removed, added, score);
    OrderKeptExactly(removed, added, score);
    SamePlaces(added, order);
    if Text(Pick(added, order)) + a == Text(added) + b {
      CutAlike(Pick(added, order), added, a, b);
    }
  }

  lemma {:induction false} ReorderedExactly(parts: seq<Part>, t: Tools)
    requires RunsCanonical(parts, t)
    ensures Reordered(parts, t) == Working(parts) <==> RunsInOrder(parts, t)
  {
    hide PairedInOrder, RunOrder, IsRun, Text, AllCanonical, DistinctItems;
    if parts == [] {
    } else if |parts| > 1 && IsRun(parts[0], parts[1], t) {
      ReorderedExactly(parts[2..], t);
      RunKinds(parts[0], parts[1], t);
      SideOfRun(parts);
      RunIsCut(parts[0].value, parts[1].value, t.score, Reordered(parts[2..], t), Working(parts[2..]));
    } else {
      ReorderedExactly(parts[1..], t);
      var front := if parts[0].kind == Removed then "" else Text(parts[0].value);
      SameBehind(front, Reordered(parts[1..], t), Working(parts[1..]));
    }
  }

  lemma RunKinds(current: Part, next: Part, t: Tools)
    requires IsRun(current, next, t)
    ensures current.kind == Removed && next.kind == Added
  {
  }

  lemma SameBehind(front: string, a: string, b: string)
    ensures front + a == front + b <==> a == b
  {
    assert (front + a)[|front|..] == a && (front + b)[|front|..] == b;
  }

  /** Over whole texts: the working text is kept to the letter if and only if every run
      is paired in order. */
  lemma WorkingKeptExactly(parts: seq<Part>, t: Tools)
    requires Faithful(t) && RunsCanonical(parts, t)
    ensures Working(Refine(parts, t)) == Working(parts) <==> RunsInOrder(parts, t)
  {
    WorkingIsReordered(parts, t);
    ReorderedExactly(parts, t);
  }

  /** Otherwise it need not be: an item paired past an unpaired one moves in front of it. */
  lemma LatePairMovesAhead(r: string, x: string, y: string, t: Tools)
    requires Faithful(t) && t.isAtom(r) && t.isAtom(x) && t.isAtom(y)
    requires t.score(r, x) < THRESHOLD <= t.score(r, y)
    ensures var parts := [Part(Removed, [r]), Part(Added, [x, y])];
            Working(parts) == x + y && Working(Refine(parts, t)) == y + x
  {
    var parts := [Part(Removed, [r]), Part(Added, [x, y])];
    var added := [x, y];
    BestIsBest(r, added, {}, t.score);
    assert added[1] == y && t.score(r, added[0]) < THRESHOLD;
    var k := Best(r, added, {}, t.score);
    assert k == 1;
    assert [r][1..] == [];
    assert Matched([r], added, {}, t.score) == [1];
    assert 1 in Members([1]) && 0 !in Members([1]);
    assert Unused(2, {} + Members([1]), 2) == [] && Unused(2, {} + Members([1]), 1) == [];
    assert RunOrder([r], added, {}, t.score) == [1, 0];
    assert Pick(added, [1, 0]) == [y, x];
    TwoItems(x, y);
    TwoItems(y, x);
    WorkingIsReordered(parts, t);
    SideOfRun(parts);
    assert parts[2..] == [];
    assert Reordered(parts[2..], t) == "";
  }

  lemma TwoItems(x: string, y: string)
    ensures Text([x, y]) == x + y
  {
    assert [x, y][1..] == [y] && [y][1..] == [];
    assert Text([y]) == y + "";
  }

  // ---------------------------------------- it happens with the source's tools

  /** The source's similarity and atom test, around any inner diff. */
  function SourceTools(sub: (string, string) -> seq<Part>): Tools {
    Tools(sub, FaqItemSimilarity, FaqWidget.IsFaqItemAtom)
  }

  /** The crudest inner diff, all out and all in, is a faithful one. */
  lemma WholeReplaceIsFaithful()
    ensures Faithful(SourceTools((a, b) => [Part(Removed, [a]), Part(Added, [b])]))
  {
    var t := SourceTools((a, b) => [Part(Removed, [a]), Part(Added, [b])]);
    forall a, b
      ensures Reproduces(t, a, b)
    {
      var x, y := [Part(Removed, [a])], [Part(Added, [b])];
      assert t.sub(a, b) == x + y;
      SideThen(x, y, Added);
      SideThen(x, y, Removed);
      OnePart(Removed, a, Added);
      OnePart(Removed, a, Removed);
      OnePart(Added, b, Added);
      OnePart(Added, b, Removed);
    }
  }

  /** A word of one letter, then a space and the rest. */
  lemma OneLetterWord(c: char, rest: string)
    requires !IsSpace(c)
    ensures Words("", [c] + (" " + rest)) == {[c]} + Words("", rest)
    ensures Words("", [c]) == {[c]}
  {
    assert ([c] + (" " + rest))[1..] == " " + rest && (" " + rest)[1..] == rest && "" + [c] == [c];
    assert Words("", [c] + (" " + rest)) == Words([c], " " + rest);
    assert [c][1..] == "";
    assert Words("", [c]) == Words([c], "");
  }

  lemma SampleWords()
    ensures Words("", "a" + " " + "a") == {"a"} && Words("", "c" + " " + "c") == {"c"}
    ensures Words("", "a" + " " + "a b") == {"a", "b"}
  {
    OneLetterWord('a', "a");
    OneLetterWord('c', "c");
    OneLetterWord('a', "b");
    OneLetterWord('b', "");
    OneLetterWord('a', "a b");
    assert "a" + " " + "a" == "a" + (" " + "a") && "c" + " " + "c" == "c" + (" " + "c");
    assert "a" + " " + "a b" == "a" + (" " + "a b") && "a b" == "a" + (" " + "b");
    assert {"a"} + {"a"} == {"a"} && {"c"} + {"c"} == {"c"} && {"a"} + ({"a"} + {"b"}) == {"a", "b"};
  }

  lemma SampleScores()
    ensures Jaccard({"a"}, {"c"}) == 0.0 && Jaccard({"a"}, {"a", "b"}) == 0.5
  {
    assert "a"[0] == 'a' && "b"[0] == 'b' && "c"[0] == 'c';
    assert {"a"} * {"c"} == {} && {"a"} * {"a", "b"} == {"a"} && {"a"} + {"a", "b"} == {"a", "b"};
    assert |{"a", "b"}| == 2 && |{"a"} + {"c"}| == 2;
  }

  /** The committed item "a"/"a" is edited to "a"/"a b", and a new item "c"/"c" is put
      in front of it: refined, the new item stands behind. */
  lemma NewItemMovesBehind(sub: (string, string) -> seq<Part>)
    requires Faithful(SourceTools(sub))
    ensures var r := FaqWidget.CanonicalFaqItemHtml("a", "a");
            var x := FaqWidget.CanonicalFaqItemHtml("c", "c");
            var y := FaqWidget.CanonicalFaqItemHtml("a", "a b");
            var parts := [Part(Removed, [r]), Part(Added, [x, y])];
            Working(parts) == x + y && Working(Refine(parts, SourceTools(sub))) == y + x
  {
    hide FaqWidget.CanonicalFaqItemHtml, FaqWidget.IsFaqItemAtom, Words, Jaccard, Refine, Side, FaqItemSimilarity;
    var r, x, y := FaqWidget.Faq("a", "a"), FaqWidget.Faq("c", "c"), FaqWidget.Faq("a", "a b");
    FaqWidget.MarkupFreeIsReadable("a", "a");
    FaqWidget.MarkupFreeIsReadable("c", "c");
    FaqWidget.MarkupFreeIsReadable("a", "a b");
    SampleWords();
    SampleScores();
    SimilarityOfAtoms(r, x);
    SimilarityOfAtoms(r, y);
    FaqWidget.AtomIsRecognised("a", "a");
    FaqWidget.AtomIsRecognised("c", "c");
    FaqWidget.AtomIsRecognised("a", "a b");
    LatePairMovesAhead(FaqWidget.CanonicalFaqItemHtml("a", "a"), FaqWidget.CanonicalFaqItemHtml("c", "c"),
                       FaqWidget.CanonicalFaqItemHtml("a", "a b"), SourceTools(sub));
  }
}
