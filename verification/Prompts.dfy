/**
  The prompt-template store: include expansion along a voice's fallback chain
  (content_tool/prompts_store.py).
*/
module Prompts {
  import opened Wrappers

  const SHARED_VOICE := "__shared__"

  datatype Row = Row(voice: string, templateId: string, category: string, body: string)

  /** The snapshot of all rows, with the bundled files behind it. */
  datatype Store = Store(rows: map<(string, string), Row>, files: map<string, string>)

  datatype Outcome =
    | Assembled(text: string)
    | Cycle(name: string)
    | NotFound(name: string)

  function LookupRow(s: Store, voice: string, id: string): Option<Row> {
    if (voice, id) in s.rows then Some(s.rows[(voice, id)])
    else if voice != SHARED_VOICE && (SHARED_VOICE, id) in s.rows then Some(s.rows[(SHARED_VOICE, id)])
    else None
  }

  function RawBody(s: Store, voice: string, id: string): Option<string> {
    match LookupRow(s, voice, id)
    case Some(row) => Some(row.body)
    case None => if id in s.files then Some(s.files[id]) else None
  }

  // --------------------------------------------------- the include directive

  datatype Piece = Chr(c: char) | Include(name: string)

  predicate IsNameChar(c: char) {
    'A' <= c <= 'Z' || 'a' <= c <= 'z' || '0' <= c <= '9' || c in "_./-"
  }

  function NameRun(s: string): (n: nat)
    ensures n <= |s|
  {
    if s == "" || !IsNameChar(s[0]) then 0 else 1 + NameRun(s[1..])
  }

  const OPEN := "{{include:"

  /** The name matched by the directive at the head of `s`, if there is one. */
  function MatchInclude(s: string): (m: Option<string>)
    ensures m.Some? ==> |OPEN| + |m.value| + 2 <= |s|
  {
    if OPEN <= s then
      var tail := s[|OPEN|..];
      var n := NameRun(tail);
      if n > 0 && "}}" <= tail[n..] then Some(tail[..n]) else None
    else None
  }

  /** The non-overlapping matches, leftmost first, with the text between them. */
  function Pieces(s: string): seq<Piece>
    decreases |s|
  {
    if s == "" then []
    else match MatchInclude(s)
      case Some(name) => [Include(name)] + Pieces(s[|OPEN| + |name| + 2..])
      case None => [Chr(s[0])] + Pieces(s[1..])
  }

  function RStripNewlines(s: string): string {
    if s != "" && s[|s| - 1] == '\n' then RStripNewlines(s[..|s| - 1]) else s
  }

  /** What an include of each name is replaced by, before its own includes. */
  type Library = map<string, seq<Piece>>

  /** Every name under which some body can be found. */
  function Names(s: Store): set<string> {
    (set key | key in s.rows :: key.1) + s.files.Keys
  }

  /** The partials a voice sees along its fallback chain. */
  function View(s: Store, voice: string): Library {
    map name | name in Names(s) && RawBody(s, voice, name).Some? ::
      Pieces(RStripNewlines(RawBody(s, voice, name).value))
  }

  lemma ViewIsRawBody(s: Store, voice: string, name: string)
    ensures name in View(s, voice) <==> RawBody(s, voice, name).Some?
    ensures name in View(s, voice) ==>
              View(s, voice)[name] == Pieces(RStripNewlines(RawBody(s, voice, name).value))
  {
    if (voice, name) in s.rows { assert (voice, name).1 == name; }
    if (SHARED_VOICE, name) in s.rows { assert (SHARED_VOICE, name).1 == name; }
  }

  // ----------------------------------------------------------- the expander

  function Unseen(lib: Library, seen: set<string>): nat {
    |lib.Keys - seen|
  }

  lemma OneFewer(lib: Library, seen: set<string>, name: string)
    requires name !in seen && name in lib
    ensures Unseen(lib, seen + {name}) < Unseen(lib, seen)
  {
    assert lib.Keys - (seen + {name}) == (lib.Keys - seen) - {name};
  }

  function Then(a: Outcome, b: Outcome): Outcome {
    if a.Assembled? && b.Assembled? then Assembled(a.text + b.text)
    else if a.Assembled? then b else a
  }

  /** Left to right; the first error met wins. */
  function Resolve(ps: seq<Piece>, lib: Library, seen: set<string>): Outcome
    decreases Unseen(lib, seen), |ps|
  {
    if ps == [] then Assembled("")
    else match ps[0]
      case Chr(c) => Then(Assembled([c]), Resolve(ps[1..], lib, seen))
      case Include(name) =>
        if name in seen then Cycle(name)
        else if name !in lib then NotFound(name)
        else
          OneFewer(lib, seen, name);
          Then(Resolve(lib[name], lib, seen + {name}), Resolve(ps[1..], lib, seen))
  }

  function ResolveBody(body: string, s: Store, voice: string): Outcome {
    Resolve(Pieces(body), View(s, voice), {})
  }

  function Assemble(id: string, s: Store, voice: string): Outcome {
    match RawBody(s, voice, id)
    case None => NotFound(id)
    case Some(body) => ResolveBody(body, s, voice)
  }

  // ------------------------------------- success: no dead end and no cycle

  /** `p` follows includes from the text `ps`: its first name is included there,
      each later one by the body of the name before it. */
  predicate IncludePath(ps: seq<Piece>, lib: Library, p: seq<string>)
    decreases |p|
  {
    p == [] ||
    (Include(p[0]) in ps &&
     (|p| == 1 || (p[0] in lib && IncludePath(lib[p[0]], lib, p[1..]))))
  }

  /** The path ends at an existing template it has not passed before. */
  predicate Fine(lib: Library, seen: set<string>, p: seq<string>)
    requires p != []
  {
    var end := p[|p| - 1];
    end in lib && end !in seen && end !in p[..|p| - 1]
  }

  lemma {:induction false} SuccessReachesIncludes(ps: seq<Piece>, lib: Library, seen: set<string>, name: string)
    requires Resolve(ps, lib, seen).Assembled? && Include(name) in ps
    ensures name !in seen && name in lib && Resolve(lib[name], lib, seen + {name}).Assembled?
    decreases |ps|
  {
    if ps[0] != Include(name) {
      SuccessReachesIncludes(ps[1..], lib, seen, name);
    }
  }

  lemma {:induction false} SuccessMeansFine(ps: seq<Piece>, lib: Library, seen: set<string>, p: seq<string>)
    requires Resolve(ps, lib, seen).Assembled?
    requires p != [] && IncludePath(ps, lib, p)
    ensures Fine(lib, seen, p)
    decreases |p|
  {
    SuccessReachesIncludes(ps, lib, seen, p[0]);
    if |p| > 1 {
      SuccessMeansFine(lib[p[0]], lib, seen + {p[0]}, p[1..]);
      assert p[..|p| - 1] == [p[0]] + p[1..][..|p| - 2];
    }
  }

  /** `p` leads to the name the error reports and shows why it was raised. */
  predicate Explains(r: Outcome, lib: Library, seen: set<string>, p: seq<string>) {
    && !r.Assembled?
    && p != []
    && r.name == p[|p| - 1]
    && (r.NotFound? ==> r.name !in lib)
    && (r.Cycle? ==> r.name in seen || r.name in p[..|p| - 1])
  }

  lemma PathThrough(r: Outcome, ps: seq<Piece>, lib: Library, seen: set<string>, name: string, q: seq<string>)
    requires Include(name) in ps && name in lib
    requires IncludePath(lib[name], lib, q) && Explains(r, lib, seen + {name}, q)
    ensures IncludePath(ps, lib, [name] + q) && Explains(r, lib, seen, [name] + q)
  {
    var p := [name] + q;
    assert p[1..] == q;
    assert p[..|p| - 1] == [name] + q[..|q| - 1];
  }

  /** An error always comes with the include path that causes it. */
  lemma {:induction false} ErrorHasPath(ps: seq<Piece>, lib: Library, seen: set<string>) returns (p: seq<string>)
    requires !Resolve(ps, lib, seen).Assembled?
    ensures IncludePath(ps, lib, p) && Explains(Resolve(ps, lib, seen), lib, seen, p)
    decreases Unseen(lib, seen), |ps|
  {
    if ps[0].Chr? {
      p := ErrorHasPath(ps[1..], lib, seen);
    } else {
      var name := ps[0].name;
      if name in seen || name !in lib {
        p := [name];
      } else {
        OneFewer(lib, seen, name);
        var r := Resolve(lib[name], lib, seen + {name});
        if r.Assembled? {
          p := ErrorHasPath(ps[1..], lib, seen);
        } else {
          var q := ErrorHasPath(lib[name], lib, seen + {name});
          PathThrough(r, ps, lib, seen, name, q);
          p := [name] + q;
        }
      }
    }
  }

  /** Assembly succeeds exactly when every include path ends at a template that
      exists along the voice's chain and that the path has not been through. */
  lemma SucceedsExactly(body: string, s: Store, voice: string)
    ensures ResolveBody(body, s, voice).Assembled? <==>
            forall p :: p != [] && IncludePath(Pieces(body), View(s, voice), p) ==> Fine(View(s, voice), {}, p)
  {
    var ps, lib := Pieces(body), View(s, voice);
    if Resolve(ps, lib, {}).Assembled? {
      forall p | p != [] && IncludePath(ps, lib, p) ensures Fine(lib, {}, p) {
        SuccessMeansFine(ps, lib, {}, p);
      }
    } else {
      var p := ErrorHasPath(ps, lib, {});
      assert !Fine(lib, {}, p);
    }
  }

  // ------------------------------------ meaning: unchecked textual unfolding

  /** Plain textual replacement to at most `depth` levels, with no record of
      where it has been. */
  function Unfold(ps: seq<Piece>, lib: Library, depth: nat): Option<string>
    decreases depth, |ps|
  {
    if ps == [] then Some("")
    else
      var tail := Unfold(ps[1..], lib, depth);
      var head :=
        match ps[0]
        case Chr(c) => Some([c])
        case Include(name) =>
          if depth == 0 || name !in lib then None else Unfold(lib[name], lib, depth - 1);
      if head.Some? && tail.Some? then Some(head.value + tail.value) else None
  }

  lemma {:induction false} UnfoldDeeper(ps: seq<Piece>, lib: Library, m: nat, n: nat)
    requires m <= n && Unfold(ps, lib, m).Some?
    ensures Unfold(ps, lib, n) == Unfold(ps, lib, m)
    decreases m, |ps|
  {
    if ps != [] {
      UnfoldDeeper(ps[1..], lib, m, n);
      if ps[0].Include? {
        UnfoldDeeper(lib[ps[0].name], lib, m - 1, n - 1);
      }
    }
  }

  lemma {:induction false} ResolveIsUnfold(ps: seq<Piece>, lib: Library, seen: set<string>)
    requires Resolve(ps, lib, seen).Assembled?
    ensures Unfold(ps, lib, Unseen(lib, seen)) == Some(Resolve(ps, lib, seen).text)
    decreases Unseen(lib, seen), |ps|
  {
    if ps != [] {
      ResolveIsUnfold(ps[1..], lib, seen);
      if ps[0].Include? {
        InnerIsUnfold(ps[0].name, lib, seen);
      }
    }
  }

  lemma {:induction false} InnerIsUnfold(name: string, lib: Library, seen: set<string>)
    requires name !in seen && name in lib && Resolve(lib[name], lib, seen + {name}).Assembled?
    ensures Unseen(lib, seen) > 0
    ensures Unfold(lib[name], lib, Unseen(lib, seen) - 1) == Some(Resolve(lib[name], lib, seen + {name}).text)
    decreases Unseen(lib, seen), 0
  {
    OneFewer(lib, seen, name);
    ResolveIsUnfold(lib[name], lib, seen + {name});
    UnfoldDeeper(lib[name], lib, Unseen(lib, seen + {name}), Unseen(lib, seen) - 1);
  }

  /** The names on the path cannot be unfolded in fewer levels than are left. */
  ghost predicate TooDeep(lib: Library, seen: set<string>, depth: nat) {
    forall x :: x in seen && x in lib && depth > 0 ==> Unfold(lib[x], lib, depth - 1).None?
  }

  lemma Shallowest(ps: seq<Piece>, lib: Library, n: nat) returns (m: nat)
    requires Unfold(ps, lib, n).Some?
    ensures m <= n && Unfold(ps, lib, m).Some?
    ensures m > 0 ==> Unfold(ps, lib, m - 1).None?
  {
    m := n;
    while m > 0 && Unfold(ps, lib, m - 1).Some?
      invariant m <= n && Unfold(ps, lib, m).Some?
    {
      m := m - 1;
    }
  }

  lemma {:induction false} UnfoldIsResolve(ps: seq<Piece>, lib: Library, seen: set<string>, depth: nat)
    requires Unfold(ps, lib, depth).Some? && TooDeep(lib, seen, depth)
    ensures Resolve(ps, lib, seen).Assembled?
    decreases depth, |ps|
  {
    if ps != [] {
      UnfoldIsResolve(ps[1..], lib, seen, depth);
      if ps[0].Include? {
        var name := ps[0].name;
        var m := Shallowest(lib[name], lib, depth - 1);
        forall x | x in seen + {name} && x in lib && m > 0 ensures Unfold(lib[x], lib, m - 1).None? {
          if x != name && Unfold(lib[x], lib, m - 1).Some? {
            UnfoldDeeper(lib[x], lib, m - 1, depth - 1);
          }
        }
        UnfoldIsResolve(lib[name], lib, seen + {name}, m);
      }
    }
  }

  /** The expander computes the finite textual unfolding whenever there is one,
      and succeeds only then; as many levels as there are names always suffice. */
  lemma ResolvesToTheUnfolding(body: string, s: Store, voice: string, text: string)
    ensures ResolveBody(body, s, voice) == Assembled(text) <==>
            exists depth: nat :: Unfold(Pieces(body), View(s, voice), depth) == Some(text)
    ensures ResolveBody(body, s, voice) == Assembled(text) ==>
            Unfold(Pieces(body), View(s, voice), |View(s, voice).Keys|) == Some(text)
  {
    UnfoldingExactly(Pieces(body), View(s, voice), text);
  }

  lemma UnfoldingExactly(ps: seq<Piece>, lib: Library, text: string)
    ensures Resolve(ps, lib, {}) == Assembled(text) <==>
            exists depth: nat :: Unfold(ps, lib, depth) == Some(text)
    ensures Resolve(ps, lib, {}) == Assembled(text) ==> Unfold(ps, lib, |lib.Keys|) == Some(text)
  {
    var n := |lib.Keys|;
    assert lib.Keys - {} == lib.Keys;
    if Resolve(ps, lib, {}).Assembled? {
      ResolveIsUnfold(ps, lib, {});
    }
    if depth: nat :| Unfold(ps, lib, depth) == Some(text) {
      UnfoldIsResolve(ps, lib, {}, depth);
      ResolveIsUnfold(ps, lib, {});
      UnfoldDeeper(ps, lib, if depth < n then depth else n, if depth < n then n else depth);
    }
  }

  // ---------------------------------------------------- drafts in the preview

  /** The editor's variant: an included name that has a draft takes the draft. */
  function ResolveWithOverrides(ps: seq<Piece>, lib: Library, overrides: map<string, string>, seen: set<string>)
    : Outcome
    decreases |lib.Keys + overrides.Keys - seen|, |ps|
  {
    if ps == [] then Assembled("")
    else match ps[0]
      case Chr(c) => Then(Assembled([c]), ResolveWithOverrides(ps[1..], lib, overrides, seen))
      case Include(name) =>
        if name in seen then Cycle(name)
        else if name !in overrides && name !in lib then NotFound(name)
        else
          var inner := if name in overrides then Pieces(RStripNewlines(overrides[name])) else lib[name];
          assert lib.Keys + overrides.Keys - (seen + {name}) == (lib.Keys + overrides.Keys - seen) - {name};
          Then(ResolveWithOverrides(inner, lib, overrides, seen + {name}),
               ResolveWithOverrides(ps[1..], lib, overrides, seen))
  }

  function AssembleWithOverrides(id: string, s: Store, overrides: map<string, string>, voice: string): Outcome {
    match RawBody(s, voice, id)
    case None => NotFound(id)
    case Some(body) => ResolveWithOverrides(Pieces(body), View(s, voice), overrides, {})
  }

  /** The store after every draft has been saved under `voice`. */
  function Saved(s: Store, drafts: map<string, string>, voice: string): Store {
    s.(rows := s.rows + map key: (string, string) | key in (set id | id in drafts :: (voice, id)) ::
         Row(voice, key.1, "partial", drafts[key.1]))
  }

  lemma SavedBody(s: Store, drafts: map<string, string>, voice: string, id: string)
    ensures RawBody(Saved(s, drafts, voice), voice, id)
            == if id in drafts then Some(drafts[id]) else RawBody(s, voice, id)
  {
  }

  lemma {:induction false} OverridesAreSaves(ps: seq<Piece>, lib: Library, drafts: map<string, string>,
                                             saved: Library, seen: set<string>)
    requires saved.Keys == lib.Keys + drafts.Keys
    requires forall name :: name in saved ==>
               saved[name] == if name in drafts then Pieces(RStripNewlines(drafts[name])) else lib[name]
    ensures ResolveWithOverrides(ps, lib, drafts, seen) == Resolve(ps, saved, seen)
    decreases Unseen(saved, seen), |ps|
  {
    if ps != [] {
      OverridesAreSaves(ps[1..], lib, drafts, saved, seen);
      if ps[0].Include? {
        var name := ps[0].name;
        if name !in seen && name in saved {
          OneFewer(saved, seen, name);
          OverridesAreSaves(saved[name], lib, drafts, saved, seen + {name});
        }
      }
    }
  }

  lemma SavedView(s: Store, drafts: map<string, string>, voice: string)
    ensures View(Saved(s, drafts, voice), voice).Keys == View(s, voice).Keys + drafts.Keys
    ensures forall name :: name in View(Saved(s, drafts, voice), voice) ==>
              View(Saved(s, drafts, voice), voice)[name]
              == if name in drafts then Pieces(RStripNewlines(drafts[name])) else View(s, voice)[name]
  {
    var saved := View(Saved(s, drafts, voice), voice);
    forall name
      ensures name in saved <==> name in View(s, voice).Keys + drafts.Keys
      ensures name in saved ==>
                saved[name] == if name in drafts then Pieces(RStripNewlines(drafts[name])) else View(s, voice)[name]
    {
      SavedBody(s, drafts, voice, name);
      ViewIsRawBody(s, voice, name);
      ViewIsRawBody(Saved(s, drafts, voice), voice, name);
    }
    assert saved.Keys == View(s, voice).Keys + drafts.Keys;
  }

  /** The preview of unsaved drafts is what assembly yields once they are saved,
      from the route's stored body; a route that is not itself among the drafts
      is simply assembled. */
  lemma PreviewEqualsSave(id: string, s: Store, drafts: map<string, string>, voice: string)
    ensures RawBody(s, voice, id).Some? ==>
              AssembleWithOverrides(id, s, drafts, voice)
              == ResolveBody(RawBody(s, voice, id).value, Saved(s, drafts, voice), voice)
    ensures id !in drafts ==>
              AssembleWithOverrides(id, s, drafts, voice) == Assemble(id, Saved(s, drafts, voice), voice)
  {
    SavedBody(s, drafts, voice, id);
    if RawBody(s, voice, id).Some? {
      SavedView(s, drafts, voice);
      OverridesAreSaves(Pieces(RawBody(s, voice, id).value), View(s, voice), drafts,
                        View(Saved(s, drafts, voice), voice), {});
    }
  }

  /** With no drafts the preview is the plain assembly. */
  lemma NoDraftsPlainAssembly(id: string, s: Store, voice: string)
    ensures AssembleWithOverrides(id, s, map[], voice) == Assemble(id, s, voice)
  {
    if RawBody(s, voice, id).Some? {
      OverridesAreSaves(Pieces(RawBody(s, voice, id).value), View(s, voice), map[], View(s, voice), {});
    }
  }

  /** Voices (of any two stores) that see the same bodies assemble the same prompts. */
  lemma SameBodiesSamePrompts(id: string, s: Store, voice: string, s': Store, voice': string)
    requires forall name :: RawBody(s, voice, name) == RawBody(s', voice', name)
    ensures Assemble(id, s, voice) == Assemble(id, s', voice')
  {
    forall name
      ensures name in View(s, voice) <==> name in View(s', voice')
      ensures name in View(s, voice) ==> View(s, voice)[name] == View(s', voice')[name]
    {
      ViewIsRawBody(s, voice, name);
      ViewIsRawBody(s', voice', name);
    }
    assert View(s, voice) == View(s', voice');
    assert RawBody(s, voice, id) == RawBody(s', voice', id);
  }
}
