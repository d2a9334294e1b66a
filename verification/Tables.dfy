/**
 * The flow tables of one reader: rows addressed by flow and primary key, filled by a sequence of
 * keyed writes.
 */
module Tables {
  import opened Merge

  datatype RowId = RowId(flow: string, key: string)

  type Tables = map<RowId, Row>

  /** One leg's contribution to one row, addressed by the flow's primary key. */
  datatype Write = Write(id: RowId, contribution: Contribution)

  type Schemas = map<string, Schema>

  function SchemaOf(schemas: Schemas, flow: string): Schema {
    if flow in schemas then schemas[flow] else Schema(map[], {})
  }

  /** `INSERT ... ON CONFLICT (key) DO UPDATE` of one contribution. */
  function Upserted(schemas: Schemas, t: Tables, w: Write): Tables {
    var s := SchemaOf(schemas, w.id.flow);
    t[w.id := if w.id in t then Merged(s, t[w.id], w.contribution) else Inserted(s, w.contribution)]
  }

  function UpsertedAll(schemas: Schemas, t: Tables, ws: seq<Write>): Tables {
    if ws == [] then t
    else Upserted(schemas, UpsertedAll(schemas, t, ws[..|ws| - 1]), ws[|ws| - 1])
  }

  lemma {:induction false} UpsertedAllAppend(schemas: Schemas, t: Tables, a: seq<Write>, b: seq<Write>)
    ensures UpsertedAll(schemas, t, a + b) == UpsertedAll(schemas, UpsertedAll(schemas, t, a), b)
    decreases |b|
  {
    if b == [] {
      assert a + b == a;
    } else {
      var n := |b| - 1;
      assert (a + b)[..|a + b| - 1] == a + b[..n];
      UpsertedAllAppend(schemas, t, a, b[..n]);
    }
  }

  /** The contributions to one row, in order. */
  function Touching(ws: seq<Write>, id: RowId): seq<Contribution> {
    if ws == [] then []
    else
      var last := ws[|ws| - 1];
      Touching(ws[..|ws| - 1], id) + if last.id == id then [last.contribution] else []
  }

  /** A table is, row by row, the fold of the contributions to that row. */
  lemma {:induction false} RowIsFold(schemas: Schemas, ws: seq<Write>, id: RowId)
    ensures id in UpsertedAll(schemas, map[], ws) <==> Touching(ws, id) != []
    ensures Touching(ws, id) != [] ==>
              UpsertedAll(schemas, map[], ws)[id] == FoldRow(SchemaOf(schemas, id.flow), Touching(ws, id))
  {
    if ws != [] {
      var front, last := ws[..|ws| - 1], ws[|ws| - 1];
      RowIsFold(schemas, front, id);
      UpsertedRow(schemas, UpsertedAll(schemas, map[], front), last, id);
      if last.id == id {
        FoldRowSnoc(SchemaOf(schemas, id.flow), Touching(front, id), last.contribution);
      } else {
        assert Touching(ws, id) == Touching(front, id);
      }
    }
  }

  /** An upsert touches its own row and no other. */
  lemma UpsertedRow(schemas: Schemas, t: Tables, w: Write, id: RowId)
    ensures id in Upserted(schemas, t, w) <==> id in t || id == w.id
    ensures id in t && id != w.id ==> Upserted(schemas, t, w)[id] == t[id]
    ensures var s := SchemaOf(schemas, id.flow);
            id == w.id ==>
              if id in t then MergesInto(s, t[id], w.contribution, Upserted(schemas, t, w)[id])
              else InsertsAs(s, w.contribution, Upserted(schemas, t, w)[id])
  {
  }

  /**
   * An upsert of a row that others leave alone may as well come before them: so a statement that waited
   * for no row lock of an open transaction has the effect of coming before the transaction.
   */
  lemma {:induction false} UpsertPassesOthers(schemas: Schemas, t: Tables, ws: seq<Write>, w: Write)
    requires forall v | v in ws :: v.id != w.id
    ensures Upserted(schemas, UpsertedAll(schemas, t, ws), w) == UpsertedAll(schemas, Upserted(schemas, t, w), ws)
  {
    if ws != [] {
      var front, last := ws[..|ws| - 1], ws[|ws| - 1];
      assert ws == front + [last];
      UpsertPassesOthers(schemas, t, front, w);
      UpsertsCommute(schemas, UpsertedAll(schemas, t, front), last, w);
    }
  }

  /** And so may the deletion of such rows. */
  lemma {:induction false} PrunePassesOthers(schemas: Schemas, t: Tables, ws: seq<Write>, ids: set<RowId>)
    requires forall v | v in ws :: v.id !in ids
    ensures UpsertedAll(schemas, t, ws) - ids == UpsertedAll(schemas, t - ids, ws)
  {
    hide Upserted;
    if ws != [] {
      var front, last := ws[..|ws| - 1], ws[|ws| - 1];
      assert ws == front + [last];
      PrunePassesOthers(schemas, t, front, ids);
      PruneCommutes(schemas, UpsertedAll(schemas, t, front), last, ids);
    }
  }

  lemma PruneCommutes(schemas: Schemas, t: Tables, v: Write, ids: set<RowId>)
    requires v.id !in ids
    ensures Upserted(schemas, t, v) - ids == Upserted(schemas, t - ids, v)
  {
  }

  lemma UpsertsCommute(schemas: Schemas, t: Tables, v: Write, w: Write)
    requires v.id != w.id
    ensures Upserted(schemas, Upserted(schemas, t, v), w) == Upserted(schemas, Upserted(schemas, t, w), v)
  {
  }

  lemma {:induction false} TouchingElements(ws: seq<Write>, id: RowId, c: Contribution)
    ensures c in Touching(ws, id) <==> Write(id, c) in ws
  {
    if ws != [] {
      var front, last := ws[..|ws| - 1], ws[|ws| - 1];
      TouchingElements(front, id, c);
      assert ws == front + [last];
    }
  }

  /** The contributions to one row out of a set of writes. */
  function Contributions(ws: set<Write>, id: RowId): set<Contribution> {
    set w | w in ws && w.id == id :: w.contribution
  }

  /** Every row's contributions agree, in the sense that makes their order immaterial. */
  ghost predicate AllAgree(schemas: Schemas, ws: set<Write>) {
    forall id: RowId :: Agreeing(SchemaOf(schemas, id.flow), Contributions(ws, id))
  }

  lemma TouchingSet(ws: seq<Write>, id: RowId)
    ensures Elements(Touching(ws, id)) == Contributions(Elements(ws), id)
  {
    forall c ensures c in Elements(Touching(ws, id)) <==> c in Contributions(Elements(ws), id) {
      TouchingElements(ws, id, c);
      if Write(id, c) in ws {
        assert Write(id, c) in Elements(ws);
      }
    }
  }

  /** Two tables agree about a row: both hold it alike, or neither does. */
  predicate SameAt(t: Tables, u: Tables, id: RowId) {
    (id in t <==> id in u) && (id in t ==> t[id] == u[id])
  }

  lemma SameEverywhere(t: Tables, u: Tables)
    requires forall id: RowId :: SameAt(t, u, id)
    ensures t == u
  {
    forall id: RowId ensures id in t <==> id in u {
      assert SameAt(t, u, id);
    }
    forall id: RowId | id in t ensures t[id] == u[id] {
      assert SameAt(t, u, id);
    }
  }

  /** What was agreed on a row stays so as the same writes are made to both tables. */
  lemma {:induction false} SameAtOnward(schemas: Schemas, t: Tables, u: Tables, ws: seq<Write>, id: RowId)
    requires SameAt(t, u, id)
    ensures SameAt(UpsertedAll(schemas, t, ws), UpsertedAll(schemas, u, ws), id)
  {
    if ws != [] {
      SameAtOnward(schemas, t, u, ws[..|ws| - 1], id);
    }
  }

  /** Agreeing writes leave the same tables in any order and however often each is repeated. */
  lemma SameWritesSameTables(schemas: Schemas, ws: seq<Write>, vs: seq<Write>)
    requires Elements(ws) == Elements(vs)
    requires AllAgree(schemas, Elements(ws))
    ensures UpsertedAll(schemas, map[], ws) == UpsertedAll(schemas, map[], vs)
  {
    var a, b := UpsertedAll(schemas, map[], ws), UpsertedAll(schemas, map[], vs);
    hide UpsertedAll, Agreeing;
    forall id: RowId ensures SameAt(a, b, id) {
      SameRow(schemas, ws, vs, id);
    }
    SameEverywhere(a, b);
  }

  /** And agreeing contributions to one row leave that row the same, whatever becomes of the others. */
  lemma SameRow(schemas: Schemas, ws: seq<Write>, vs: seq<Write>, id: RowId)
    requires Contributions(Elements(ws), id) == Contributions(Elements(vs), id)
    requires Agreeing(SchemaOf(schemas, id.flow), Contributions(Elements(ws), id))
    ensures SameAt(UpsertedAll(schemas, map[], ws), UpsertedAll(schemas, map[], vs), id)
  {
    RowIsFold(schemas, ws, id);
    RowIsFold(schemas, vs, id);
    TouchingSet(ws, id);
    TouchingSet(vs, id);
    var cs, ds := Touching(ws, id), Touching(vs, id);
    if cs != [] {
      assert cs[0] in Elements(ds);
    }
    if ds != [] {
      assert ds[0] in Elements(cs);
    }
    if cs != [] {
      SameContributionsSameRow(SchemaOf(schemas, id.flow), cs, ds);
    }
  }
}
