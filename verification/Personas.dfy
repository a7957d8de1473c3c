/**
  Cloning a voice: which prompt rows the new voice receives, and what its
  prompts then say (content_tool/policy/personas.py).
*/
module Personas {
  import opened Wrappers
  import opened Prompts

  const CLONED_CATEGORIES := {"agent", "partial"}

  /** The set a source voice sees: a later row replaces an earlier one only if
      it is the voice's own. */
  function Resolved(rows: seq<Row>, source: string): map<string, Row> {
    if rows == [] then map[]
    else
      var before, r := Resolved(rows[..|rows| - 1], source), rows[|rows| - 1];
      if r.templateId !in before || r.voice == source then before[r.templateId := r] else before
  }

  method ResolvedPromptRows(rows: seq<Row>, source: string) returns (resolved: map<string, Row>)
    ensures resolved == Resolved(rows, source)
  {
    resolved := map[];
    for i := 0 to |rows|
      invariant resolved == Resolved(rows[..i], source)
    {
      var r := rows[i];
      assert rows[..i + 1][..i] == rows[..i];
      if r.templateId !in resolved || r.voice == source {
        resolved := resolved[r.templateId := r];
      }
    }
    assert rows[..|rows|] == rows;
  }

  /** Rows are filed under their own voice and template. */
  ghost predicate WellKeyed(s: Store) {
    forall key :: key in s.rows ==> s.rows[key].voice == key.0 && s.rows[key].templateId == key.1
  }

  predicate Selected(key: (string, string), r: Row, source: string) {
    key.0 in {SHARED_VOICE, source} && r.category in CLONED_CATEGORIES
  }

  /** `rows` is the query's answer, in whatever order the database returns it. */
  ghost predicate QueryAnswer(s: Store, source: string, rows: seq<Row>) {
    && (forall r :: r in rows ==> (r.voice, r.templateId) in s.rows && s.rows[(r.voice, r.templateId)] == r
                                  && Selected((r.voice, r.templateId), r, source))
    && (forall key :: key in s.rows && Selected(key, s.rows[key], source) ==> s.rows[key] in rows)
  }

  /** What the rows resolve to for one template, order apart. */
  ghost predicate OwnElseShared(rows: seq<Row>, source: string, id: string, picked: Option<Row>) {
    match picked
    case None => forall r :: r in rows ==> r.templateId != id
    case Some(p) =>
      && p in rows && p.templateId == id
      && (p.voice != source ==> forall r :: r in rows && r.templateId == id ==> r.voice != source)
  }

  lemma {:induction false} ResolvedPicks(rows: seq<Row>, source: string, id: string)
    ensures var m := Resolved(rows, source);
            OwnElseShared(rows, source, id, if id in m then Some(m[id]) else None)
  {
    if rows != [] {
      var init, r := rows[..|rows| - 1], rows[|rows| - 1];
      ResolvedPicks(init, source, id);
      assert rows == init + [r];
    }
  }

  /** The store with the clone's rows added. */
  function Cloned(s: Store, resolved: map<string, Row>, clone: string): Store {
    s.(rows := s.rows + map key: (string, string) | key in (set id | id in resolved :: (clone, id)) ::
         resolved[key.1].(voice := clone))
  }

  lemma ClonedRows(s: Store, resolved: map<string, Row>, clone: string, id: string)
    requires forall key :: key in s.rows ==> key.0 != clone
    ensures var rows := Cloned(s, resolved, clone).rows;
            && ((clone, id) in rows <==> id in resolved)
            && (id in resolved ==> rows[(clone, id)] == resolved[id].(voice := clone))
  {
    assert id in resolved ==> (clone, id) in (set i | i in resolved :: (clone, i));
  }

  lemma ClonedKeepsRows(s: Store, resolved: map<string, Row>, clone: string, voice: string, id: string)
    requires voice != clone
    ensures var rows := Cloned(s, resolved, clone).rows;
            && ((voice, id) in rows <==> (voice, id) in s.rows)
            && ((voice, id) in rows ==> rows[(voice, id)] == s.rows[(voice, id)])
  {
    assert (voice, id) !in (set i | i in resolved :: (clone, i));
  }

  /** The voice has a row of its own that is neither an agent prompt nor a partial. */
  predicate SkippedAt(s: Store, voice: string, id: string) {
    && (voice, id) in s.rows
    && s.rows[(voice, id)].category != "agent" && s.rows[(voice, id)].category != "partial"
  }

  /** The voice has an agent prompt or a partial under this name. */
  predicate CopiedAt(s: Store, voice: string, id: string) {
    && (voice, id) in s.rows
    && (s.rows[(voice, id)].category == "agent" || s.rows[(voice, id)].category == "partial")
  }

  /** A row of the source voice that the query skips says what the source would
      see without it. */
  ghost predicate SkippedRowsAreRedundant(s: Store, source: string) {
    forall id :: SkippedAt(s, source, id) ==>
      RawBody(s, SHARED_VOICE, id) == Some(s.rows[(source, id)].body)
  }

  /** Template by template, whatever the row order: the clone sees the source's
      body exactly unless the source's own row was skipped by category and says
      something else than the shared chain. */
  lemma CloneSeesSourceBody(s: Store, source: string, clone: string, rows: seq<Row>, id: string)
    requires WellKeyed(s) && QueryAnswer(s, source, rows)
    requires clone != SHARED_VOICE && forall key :: key in s.rows ==> key.0 != clone
    ensures RawBody(Cloned(s, Resolved(rows, source), clone), clone, id) == RawBody(s, source, id) <==>
            (SkippedAt(s, source, id) ==>
               RawBody(s, SHARED_VOICE, id) == Some(s.rows[(source, id)].body))
  {
    hide Cloned, Resolved, QueryAnswer;
    PickedBody(s, source, rows, id);
    CloneBody(s, Resolved(rows, source), clone, id);
  }

  lemma CloneBody(s: Store, resolved: map<string, Row>, clone: string, id: string)
    requires clone != SHARED_VOICE && forall key :: key in s.rows ==> key.0 != clone
    ensures RawBody(Cloned(s, resolved, clone), clone, id)
            == if id in resolved then Some(resolved[id].body) else RawBody(s, SHARED_VOICE, id)
  {
    hide Cloned;
    ClonedRows(s, resolved, clone, id);
    ClonedKeepsRows(s, resolved, clone, SHARED_VOICE, id);
    SameFiles(s, resolved, clone);
  }

  lemma SameFiles(s: Store, resolved: map<string, Row>, clone: string)
    ensures Cloned(s, resolved, clone).files == s.files
  {
  }

  lemma PickedBody(s: Store, source: string, rows: seq<Row>, id: string)
    requires WellKeyed(s) && QueryAnswer(s, source, rows)
    ensures var m, own, shared := Resolved(rows, source), (source, id), (SHARED_VOICE, id);
            && (id in m <==> (own in s.rows && Selected(own, s.rows[own], source))
                             || (shared in s.rows && Selected(shared, s.rows[shared], source)))
            && (id in m ==>
                  m[id] == s.rows[if own in s.rows && Selected(own, s.rows[own], source) then own else shared])
  {
    var m, own, shared := Resolved(rows, source), (source, id), (SHARED_VOICE, id);
    ResolvedPicks(rows, source, id);
    if id in m {
      assert (m[id].voice, id) == own || (m[id].voice, id) == shared;
      assert own in s.rows && Selected(own, s.rows[own], source) ==> s.rows[own] in rows;
    } else {
      assert !(own in s.rows && Selected(own, s.rows[own], source));
      assert !(shared in s.rows && Selected(shared, s.rows[shared], source));
    }
  }

  /** The clone gets a row for exactly the agent prompts and partials that its source or the
      shared voice has, a copy of the source's before one of the shared voice's. */
  lemma CloneRowsExactly(s: Store, source: string, clone: string, rows: seq<Row>, id: string)
    requires WellKeyed(s) && QueryAnswer(s, source, rows)
    requires clone != SHARED_VOICE && forall key :: key in s.rows ==> key.0 != clone
    ensures var rows' := Cloned(s, Resolved(rows, source), clone).rows;
            && ((clone, id) in rows' <==> CopiedAt(s, source, id) || CopiedAt(s, SHARED_VOICE, id))
            && ((clone, id) in rows' ==>
                  var voice := if CopiedAt(s, source, id) then source else SHARED_VOICE;
                  rows'[(clone, id)] == s.rows[(voice, id)].(voice := clone))
  {
    hide Resolved, QueryAnswer, Cloned;
    PickedBody(s, source, rows, id);
    ClonedRows(s, Resolved(rows, source), clone, id);
  }

  /** The clone preserves every body exactly when the rows its query skips are
      redundant, and then every prompt assembles to the same text. */
  lemma CloneKeepsPrompts(s: Store, source: string, clone: string, rows: seq<Row>)
    requires WellKeyed(s) && QueryAnswer(s, source, rows)
    requires clone != SHARED_VOICE && forall key :: key in s.rows ==> key.0 != clone
    ensures var s' := Cloned(s, Resolved(rows, source), clone);
            (forall id :: RawBody(s', clone, id) == RawBody(s, source, id)) <==> SkippedRowsAreRedundant(s, source)
    ensures SkippedRowsAreRedundant(s, source) ==>
              forall id :: Assemble(id, Cloned(s, Resolved(rows, source), clone), clone) == Assemble(id, s, source)
  {
    var s' := Cloned(s, Resolved(rows, source), clone);
    forall id
      ensures RawBody(s', clone, id) == RawBody(s, source, id) <==>
              (SkippedAt(s, source, id) ==>
                 RawBody(s, SHARED_VOICE, id) == Some(s.rows[(source, id)].body))
    {
      CloneSeesSourceBody(s, source, clone, rows, id);
    }
    if SkippedRowsAreRedundant(s, source) {
      forall id ensures Assemble(id, s', clone) == Assemble(id, s, source) {
        SameBodiesSamePrompts(id, s', clone, s, source);
      }
    }
  }

  /** Cloning disturbs no other voice. */
  lemma CloneLeavesOthersAlone(s: Store, source: string, clone: string, rows: seq<Row>, other: string, id: string)
    requires clone != SHARED_VOICE && other != clone
    ensures Assemble(id, Cloned(s, Resolved(rows, source), clone), other) == Assemble(id, s, other)
  {
    var m := Resolved(rows, source);
    forall name ensures RawBody(Cloned(s, m, clone), other, name) == RawBody(s, other, name) {
      ClonedKeepsRows(s, m, clone, other, name);
      ClonedKeepsRows(s, m, clone, SHARED_VOICE, name);
    }
    SameBodiesSamePrompts(id, Cloned(s, m, clone), other, s, other);
  }
}
