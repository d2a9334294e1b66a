/** Rewind requests: filed by agents/scan/src/admin.ts, applied by `applyRewinds` of agents/scan/src/db.ts. */
module Rewinds {

  /** A chain and a cursor (or, in a request, `*`). */
  type Key = (string, string)

  const ALL := "*"

  predicate Applies(name: string, role: string, ids: set<string>) {
    if name == ALL then role in ids else name == role
  }

  // ---- Filing ----

  /** The upsert of one request, merged with LEAST. */
  function Filed(rewinds: map<Key, int>, key: Key, block: int): map<Key, int> {
    rewinds[key := if key in rewinds && rewinds[key] < block then rewinds[key] else block]
  }

  function FiledAll(rewinds: map<Key, int>, chain: string, names: seq<string>, block: int): map<Key, int> {
    if names == [] then rewinds
    else
      var last := |names| - 1;
      Filed(FiledAll(rewinds, chain, names[..last], block), (chain, names[last]), block)
  }

  /** One `rewind` command, once its names are read: no name stands for `*`. */
  datatype Request = Request(names: seq<string>, block: int)

  function Names(names: seq<string>): seq<string> {
    if names == [] then [ALL] else names
  }

  /** The requests table after a run of commands on one chain. */
  function Table(chain: string, requests: seq<Request>): map<Key, int> {
    if requests == [] then map[]
    else
      var last := requests[|requests| - 1];
      FiledAll(Table(chain, requests[..|requests| - 1]), chain, Names(last.names), last.block)
  }

  // ---- Applying ----

  /**
   * `after` is the least of `before` and of one less than each request that applies: no greater than any
   * of them, and one of them.
   */
  ghost predicate Rewound(before: int, after: int, rewinds: map<Key, int>, chain: string, role: string,
      ids: set<string>)
  {
    && after <= before
    && (forall name | (chain, name) in rewinds && Applies(name, role, ids) :: after <= rewinds[(chain, name)] - 1)
    && (after == before ||
        exists name :: (chain, name) in rewinds && Applies(name, role, ids) && after == rewinds[(chain, name)] - 1)
  }

  /** A rewound cursor is determined, so the order in which the rows are applied does not matter. */
  lemma RewoundIsUnique(before: int, one: int, two: int, rewinds: map<Key, int>, chain: string, role: string,
      ids: set<string>)
    requires Rewound(before, one, rewinds, chain, role, ids) && Rewound(before, two, rewinds, chain, role, ids)
    ensures one == two
  {
  }

  /** The tables of one database that rewinds touch. */
  class Database {
    var cursors: map<Key, int>
    var rewinds: map<Key, int>

    constructor ()
      ensures cursors == map[] && rewinds == map[]
    {
      cursors, rewinds := map[], map[];
    }

    /** `admin.js rewind`: one request for each cursor named, or one for all. */
    method Rewind(chain: string, names: seq<string>, block: int)
      modifies this
      ensures rewinds == FiledAll(old(rewinds), chain, Names(names), block) && cursors == old(cursors)
    {
      var all := Names(names);
      for i := 0 to |all|
        invariant rewinds == FiledAll(old(rewinds), chain, all[..i], block) && cursors == old(cursors)
      {
        assert all[..i + 1][..i] == all[..i];
        rewinds := Filed(rewinds, (chain, all[i]), block);
      }
      assert all[..|all|] == all;
    }

    /**
     * `applyRewinds`, one transaction: it takes the chain's requests away and applies them in whatever
     * order they come, or changes nothing. No cursor appears, none moves forward, and none of another
     * chain moves at all.
     */
    method ApplyRewinds(chain: string, ids: set<string>, commits: bool)
      modifies this
      ensures !commits ==> cursors == old(cursors) && rewinds == old(rewinds)
      ensures commits ==> rewinds == map key | key in old(rewinds) && key.0 != chain :: old(rewinds)[key]
      ensures cursors.Keys == old(cursors).Keys
      ensures forall key | key in cursors && key.0 != chain :: cursors[key] == old(cursors)[key]
      ensures commits ==> forall key | key in cursors && key.0 == chain ::
        Rewound(old(cursors)[key], cursors[key], old(rewinds), chain, key.1, ids)
    {
      if !commits {
        return;
      }
      ghost var before := cursors;
      ghost var all := rewinds;
      var rows := set key | key in rewinds && key.0 == chain :: key;
      var left := rows;
      while left != {}
        invariant left <= rows && rewinds == all
        invariant cursors.Keys == before.Keys
        invariant forall key | key in cursors && key.0 != chain :: cursors[key] == before[key]
        invariant forall key | key in cursors && key.0 == chain ::
          Rewound(before[key], cursors[key], Without(all, left), chain, key.1, ids)
        decreases |left|
      {
        var row :| row in left;
        ghost var were := cursors;
        var block := rewinds[row];
        cursors := map key | key in cursors :: Moved(key, cursors[key], row, block, ids);
        forall key | key in cursors && key.0 == chain
          ensures Rewound(before[key], cursors[key], Without(all, left - {row}), chain, key.1, ids)
        {
          OneMoreRow(before[key], were[key], all, left, row, key, ids);
        }
        left := left - {row};
      }
      assert Without(all, {}) == all;
      rewinds := map key | key in rewinds && key.0 != chain :: rewinds[key];
    }
  }

  /** The update of one row on one cursor. */
  function Moved(key: Key, at: int, row: Key, block: int, ids: set<string>): int {
    if key.0 == row.0 && Applies(row.1, key.1, ids) && block - 1 < at then block - 1 else at
  }

  function Without(rewinds: map<Key, int>, rows: set<Key>): map<Key, int> {
    map key | key in rewinds && key !in rows :: rewinds[key]
  }

  lemma OneMoreRow(before: int, at: int, all: map<Key, int>, left: set<Key>, row: Key, key: Key, ids: set<string>)
    requires row in left && row in all && key.0 == row.0
    requires Rewound(before, at, Without(all, left), row.0, key.1, ids)
    ensures Rewound(before, Moved(key, at, row, all[row], ids), Without(all, left - {row}), row.0, key.1, ids)
  {
    var were, are := Without(all, left), Without(all, left - {row});
    var now := Moved(key, at, row, all[row], ids);
    assert row == (row.0, row.1) && row in are && are[row] == all[row];
    forall name | (row.0, name) in are && Applies(name, key.1, ids) ensures now <= are[(row.0, name)] - 1 {
      assert name != row.1 ==> (row.0, name) in were;
    }
    if now == at && at != before {
      var name :| (row.0, name) in were && Applies(name, key.1, ids) && at == were[(row.0, name)] - 1;
      assert (row.0, name) in are;
    }
  }

  // ---- Merging loses nothing ----

  /** Some command asked the cursor back to `block`. */
  ghost predicate Asked(requests: seq<Request>, name: string, block: int) {
    exists i | 0 <= i < |requests| :: name in Names(requests[i].names) && block == requests[i].block
  }

  /** The table holds, for each name, the least block asked for. */
  ghost predicate HoldsLeast(table: map<Key, int>, chain: string, requests: seq<Request>) {
    && (forall name | (chain, name) in table :: Asked(requests, name, table[(chain, name)]))
    && (forall name, block | Asked(requests, name, block) ::
          (chain, name) in table && table[(chain, name)] <= block)
  }

  lemma {:induction false} FiledAllHolds(table: map<Key, int>, chain: string, names: seq<string>, block: int,
      name: string)
    ensures
      var key := (chain, name);
      var after := FiledAll(table, chain, names, block);
      && (key in after <==> key in table || name in names)
      && (key in after ==>
            after[key] == if name !in names then table[key]
                          else if key in table && table[key] < block then table[key] else block)
    decreases |names|
  {
    if names != [] {
      var last := |names| - 1;
      assert names == names[..last] + [names[last]];
      FiledAllHolds(table, chain, names[..last], block, name);
    }
  }

  lemma {:induction false} TableHoldsLeast(chain: string, requests: seq<Request>)
    ensures HoldsLeast(Table(chain, requests), chain, requests)
  {
    if requests != [] {
      var n := |requests| - 1;
      var before, last := requests[..n], requests[n];
      TableHoldsLeast(chain, before);
      forall name ensures forall block ::
        Asked(requests, name, block) <==>
          Asked(before, name, block) || (name in Names(last.names) && block == last.block)
      {
        AskedOneMore(requests, name);
      }
      forall name {
        FiledAllHolds(Table(chain, before), chain, Names(last.names), last.block, name);
      }
    }
  }

  lemma AskedOneMore(requests: seq<Request>, name: string)
    requires requests != []
    ensures
      var n := |requests| - 1;
      forall block :: Asked(requests, name, block) <==>
        Asked(requests[..n], name, block) || (name in Names(requests[n].names) && block == requests[n].block)
  {
    var n := |requests| - 1;
    assert forall i | 0 <= i < n :: requests[..n][i] == requests[i];
  }

  /** Some command asked this cursor back to `block`: by its name, or by `*`, which is also what no name means. */
  ghost predicate AskedOf(requests: seq<Request>, role: string, ids: set<string>, block: int) {
    exists i | 0 <= i < |requests| ::
      && requests[i].block == block
      && ((role != "*" && role in requests[i].names)
          || (role in ids && (requests[i].names == [] || "*" in requests[i].names)))
  }

  lemma AskedOfIs(requests: seq<Request>, role: string, ids: set<string>, block: int)
    ensures AskedOf(requests, role, ids, block) <==>
              exists name :: Asked(requests, name, block) && Applies(name, role, ids)
  {
    if AskedOf(requests, role, ids, block) {
      var i :| 0 <= i < |requests| && requests[i].block == block
        && ((role != "*" && role in requests[i].names)
            || (role in ids && (requests[i].names == [] || "*" in requests[i].names)));
      var name := if role != "*" && role in requests[i].names then role else "*";
      assert name in Names(requests[i].names) && Asked(requests, name, block) && Applies(name, role, ids);
    }
    if name :| Asked(requests, name, block) && Applies(name, role, ids) {
      var i :| 0 <= i < |requests| && name in Names(requests[i].names) && block == requests[i].block;
    }
  }

  /**
   * Whatever was filed since the last tick and in whatever order, the tick sets a cursor to the least of
   * where it stood and of one less than every block asked of it by name or by `*`.
   */
  lemma NothingLost(chain: string, requests: seq<Request>, before: int, after: int, role: string, ids: set<string>)
    ensures Rewound(before, after, Table(chain, requests), chain, role, ids) <==>
      && after <= before
      && (forall block | AskedOf(requests, role, ids, block) :: after <= block - 1)
      && (after == before || AskedOf(requests, role, ids, after + 1))
  {
    LeastOfFiled(chain, requests, before, after, role, ids);
    hide Rewound, Table, Asked, AskedOf;
    forall block ensures AskedOf(requests, role, ids, block) <==>
                           exists name :: Asked(requests, name, block) && Applies(name, role, ids) {
      AskedOfIs(requests, role, ids, block);
    }
    forall name, block | Asked(requests, name, block) && Applies(name, role, ids)
      ensures AskedOf(requests, role, ids, block)
    {
    }
    assert after == (after + 1) - 1;
  }

  /** The requests table stands for all that was filed. */
  lemma LeastOfFiled(chain: string, requests: seq<Request>, before: int, after: int, role: string, ids: set<string>)
    ensures Rewound(before, after, Table(chain, requests), chain, role, ids) <==>
      && after <= before
      && (forall name, block | Asked(requests, name, block) && Applies(name, role, ids) :: after <= block - 1)
      && (after == before ||
          exists name, block :: Asked(requests, name, block) && Applies(name, role, ids) && after == block - 1)
  {
    TableHoldsLeast(chain, requests);
    hide Table;
  }
}
