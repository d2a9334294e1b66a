/**
 * The merge every flow row goes through: a state that advances by rank and columns that are
 * COALESCEd. Rows are folds of contributions; the main result says exactly when the order of the
 * contributions does not matter.
 */
module Merge {
  import opened Wrappers

  /** A row of a flow table. A column absent from `columns` is NULL. */
  datatype Row = Row(state: string, columns: map<string, string>)

  /** The part of a flow definition its upsert depends on. */
  datatype Schema = Schema(ranks: map<string, int>, columns: set<string>)

  /** What one leg brings to one row. A column absent from `patch` is passed as null. */
  datatype Contribution = Contribution(state: string, patch: map<string, string>)

  /** The rank function of a flow: a CASE over its states with ELSE -1. */
  function Rank(s: Schema, state: string): int {
    if state in s.ranks then s.ranks[state] else -1
  }

  /** The non-null values an upsert passes: one per declared column, whatever else the patch holds. */
  function Written(s: Schema, c: Contribution): map<string, string> {
    map k | k in c.patch && k in s.columns :: c.patch[k]
  }

  /** The row an upsert inserts where there was none. */
  function Inserted(s: Schema, c: Contribution): Row {
    Row(c.state, Written(s, c))
  }

  /** The row an upsert leaves where there was one. */
  function Merged(s: Schema, row: Row, c: Contribution): Row {
    Row(if Rank(s, c.state) > Rank(s, row.state) then c.state else row.state,
        row.columns + Written(s, c))
  }

  /** The row left by contributions arriving one after the other. */
  function FoldRow(s: Schema, cs: seq<Contribution>): Row
    requires cs != []
  {
    var last := cs[|cs| - 1];
    if |cs| == 1 then Inserted(s, last) else Merged(s, FoldRow(s, cs[..|cs| - 1]), last)
  }

  lemma FoldRowSnoc(s: Schema, cs: seq<Contribution>, c: Contribution)
    ensures FoldRow(s, cs + [c]) == if cs == [] then Inserted(s, c) else Merged(s, FoldRow(s, cs), c)
  {
    assert (cs + [c])[..|cs|] == cs;
  }

  // ---------- What the fold is, without recursion ----------

  /** Position `i` is the first contribution of the highest rank. */
  ghost predicate FirstOfTopRank(s: Schema, cs: seq<Contribution>, i: nat) {
    && i < |cs|
    && (forall j | 0 <= j < |cs| :: Rank(s, cs[j].state) <= Rank(s, cs[i].state))
    && (forall j | 0 <= j < i :: Rank(s, cs[j].state) < Rank(s, cs[i].state))
  }

  /** Position `i` is the last contribution that writes column `k`. */
  ghost predicate LastWriter(s: Schema, cs: seq<Contribution>, k: string, i: nat) {
    && i < |cs|
    && k in s.columns && k in cs[i].patch
    && (forall j | i < j < |cs| :: k !in cs[j].patch)
  }

  /** Ranks never fall: the row keeps the state of the first contribution of the highest rank. */
  lemma {:induction false} FoldRowState(s: Schema, cs: seq<Contribution>) returns (i: nat)
    requires cs != []
    ensures FirstOfTopRank(s, cs, i)
    ensures FoldRow(s, cs).state == cs[i].state
  {
    var n := |cs| - 1;
    if n == 0 {
      i := 0;
    } else {
      var front := cs[..n];
      var f := FoldRowState(s, front);
      assert forall j | 0 <= j < n :: front[j] == cs[j];
      i := if Rank(s, cs[n].state) > Rank(s, front[f].state) then n else f;
    }
  }

  /** A column holds what its last writer wrote, and is NULL exactly while nothing has written it. */
  lemma {:induction false} FoldRowColumn(s: Schema, cs: seq<Contribution>, k: string) returns (i: nat)
    requires cs != []
    ensures k in FoldRow(s, cs).columns ==>
              LastWriter(s, cs, k, i) && FoldRow(s, cs).columns[k] == cs[i].patch[k]
    ensures k in FoldRow(s, cs).columns <==> exists j :: 0 <= j < |cs| && k in s.columns && k in cs[j].patch
  {
    var n := |cs| - 1;
    i := n;
    if n > 0 {
      var front := cs[..n];
      assert forall j | 0 <= j < n :: front[j] == cs[j];
      var f := FoldRowColumn(s, front, k);
      if k !in Written(s, cs[n]) {
        i := f;
        assert k in FoldRow(s, cs).columns ==> k in s.columns && k in cs[f].patch;
      }
    }
  }

  /** Along any run the rank never falls and a column once set is never NULL again. */
  lemma {:induction false} FoldRowMonotone(s: Schema, cs: seq<Contribution>, more: seq<Contribution>)
    requires cs != []
    ensures Rank(s, FoldRow(s, cs).state) <= Rank(s, FoldRow(s, cs + more).state)
    ensures FoldRow(s, cs).columns.Keys <= FoldRow(s, cs + more).columns.Keys
    decreases |more|
  {
    if more == [] {
      assert cs + more == cs;
    } else {
      var n := |more| - 1;
      FoldRowMonotone(s, cs, more[..n]);
      assert (cs + more)[..|cs + more| - 1] == cs + more[..n];
    }
  }

  // ---------- In terms of the numbers a flow declares ----------

  /**
   * Whether a claimed state takes over from the one a row is in: of two declared ones the greater number
   * does, and an undeclared one stands where -1 does.
   */
  ghost predicate TakesOver(ranks: map<string, int>, claimed: string, was: string) {
    || (claimed in ranks && was in ranks && ranks[claimed] > ranks[was])
    || (claimed in ranks && was !in ranks && ranks[claimed] >= 0)
    || (claimed !in ranks && was in ranks && ranks[was] < -1)
  }

  /** What an upsert leaves of a row that was there. */
  ghost predicate MergesInto(s: Schema, was: Row, c: Contribution, now: Row) {
    && now.state == (if TakesOver(s.ranks, c.state, was.state) then c.state else was.state)
    && (forall k :: k in now.columns <==> k in was.columns || (k in s.columns && k in c.patch))
    && (forall k | k in now.columns ::
          now.columns[k] == if k in s.columns && k in c.patch then c.patch[k] else was.columns[k])
  }

  /** What it inserts where there was none. */
  ghost predicate InsertsAs(s: Schema, c: Contribution, now: Row) {
    && now.state == c.state
    && (forall k :: k in now.columns <==> k in s.columns && k in c.patch)
    && (forall k | k in now.columns :: now.columns[k] == c.patch[k])
  }

  lemma UpsertMerges(s: Schema, was: Row, c: Contribution)
    ensures MergesInto(s, was, c, Merged(s, was, c)) && InsertsAs(s, c, Inserted(s, c))
  {
  }

  /** Of two declared states the greater number wins; an undeclared one never replaces one numbered 0 or more. */
  lemma DeclaredStateWins(s: Schema, was: Row, c: Contribution)
    ensures c.state in s.ranks && was.state in s.ranks ==>
              Merged(s, was, c).state == if s.ranks[c.state] > s.ranks[was.state] then c.state else was.state
    ensures c.state in s.ranks && s.ranks[c.state] >= 0 && was.state !in s.ranks ==> Merged(s, was, c).state == c.state
    ensures c.state !in s.ranks && (was.state in s.ranks ==> s.ranks[was.state] >= 0) ==>
              Merged(s, was, c).state == was.state
  {
  }

  /** Where every contributed state is declared, the row holds the first of those whose number is greatest. */
  lemma FoldRowGreatest(s: Schema, cs: seq<Contribution>) returns (i: nat)
    requires cs != [] && forall j | 0 <= j < |cs| :: cs[j].state in s.ranks
    ensures i < |cs| && FoldRow(s, cs).state == cs[i].state
    ensures forall j | 0 <= j < |cs| :: s.ranks[cs[j].state] <= s.ranks[cs[i].state]
    ensures forall j | 0 <= j < i :: s.ranks[cs[j].state] < s.ranks[cs[i].state]
  {
    i := FoldRowState(s, cs);
  }

  /**
   * Undeclared states are as good as not there: if some contribution claims a declared state numbered 0 or
   * more, the row holds the first of the greatest among those that do, and otherwise, if none claims a
   * declared one at all, the first state claimed.
   */
  lemma FoldRowIgnoresUndeclared(s: Schema, cs: seq<Contribution>) returns (i: nat)
    requires cs != []
    ensures i < |cs| && FoldRow(s, cs).state == cs[i].state
    ensures (exists j :: 0 <= j < |cs| && cs[j].state in s.ranks && s.ranks[cs[j].state] >= 0) ==>
              && cs[i].state in s.ranks
              && (forall j | 0 <= j < |cs| && cs[j].state in s.ranks :: s.ranks[cs[j].state] <= s.ranks[cs[i].state])
              && (forall j | 0 <= j < i && cs[j].state in s.ranks :: s.ranks[cs[j].state] < s.ranks[cs[i].state])
    ensures (forall j | 0 <= j < |cs| :: cs[j].state !in s.ranks) ==> i == 0
  {
    i := FoldRowState(s, cs);
    if j :| 0 <= j < |cs| && cs[j].state in s.ranks && s.ranks[cs[j].state] >= 0 {
      assert Rank(s, cs[j].state) <= Rank(s, cs[i].state);
    }
    assert i > 0 ==> Rank(s, cs[0].state) < Rank(s, cs[i].state);
  }

  // ---------- Which rows are shown ----------

  /** The predicate of `validLegs`: a column set only together with the one it needs. */
  predicate ValidLegs(needs: map<string, string>, row: Row) {
    forall ref | ref in needs :: ref !in row.columns || needs[ref] in row.columns
  }

  ghost predicate Writes(s: Schema, cs: seq<Contribution>, k: string) {
    exists i :: 0 <= i < |cs| && k in s.columns && k in cs[i].patch
  }

  /** A row is shown once every leg it has brought its prerequisite, whatever the order and the values. */
  lemma ValidLegsIff(s: Schema, needs: map<string, string>, cs: seq<Contribution>)
    requires cs != []
    ensures ValidLegs(needs, FoldRow(s, cs)) <==>
              forall ref | ref in needs && Writes(s, cs, ref) :: Writes(s, cs, needs[ref])
  {
    forall k ensures k in FoldRow(s, cs).columns <==> Writes(s, cs, k) {
      var i := FoldRowColumn(s, cs, k);
    }
  }

  // ---------- When order does not matter ----------

  /** Every order of these contributions leaves the same row. */
  ghost predicate OrderInsensitive(s: Schema, cs: seq<Contribution>)
    requires cs != []
  {
    forall ds: seq<Contribution> | multiset(ds) == multiset(cs) && ds != [] :: FoldRow(s, ds) == FoldRow(s, cs)
  }

  ghost predicate TopRanked(s: Schema, cs: set<Contribution>, c: Contribution) {
    c in cs && forall d | d in cs :: Rank(s, d.state) <= Rank(s, c.state)
  }

  /**
   * Two writers of a column write the same value, and contributions of the highest rank claim the
   * same state. Lower ranks may clash: they never survive.
   */
  ghost predicate Agreeing(s: Schema, cs: set<Contribution>) {
    && (forall c, d, k | c in cs && d in cs && k in Written(s, c) && k in Written(s, d) ::
          Written(s, c)[k] == Written(s, d)[k])
    && (forall c, d | TopRanked(s, cs, c) && TopRanked(s, cs, d) :: c.state == d.state)
  }

  function Elements<T>(cs: seq<T>): set<T> {
    set c | c in cs
  }

  /** Agreeing contributions leave one row, however often each arrives and in whatever order. */
  lemma SameContributionsSameRow(s: Schema, cs: seq<Contribution>, ds: seq<Contribution>)
    requires cs != [] && ds != []
    requires Elements(cs) == Elements(ds)
    requires Agreeing(s, Elements(cs))
    ensures FoldRow(s, cs) == FoldRow(s, ds)
  {
    var i := FoldRowState(s, cs);
    var j := FoldRowState(s, ds);
    TopOfFirst(s, cs, i);
    TopOfFirst(s, ds, j);
    var a, b := FoldRow(s, cs).columns, FoldRow(s, ds).columns;
    hide FoldRow, Agreeing, FirstOfTopRank;
    forall k
      ensures k in a <==> k in b
      ensures k in a ==> a[k] == b[k]
    {
      SameColumn(s, cs, ds, k);
    }
    assert a == b;
  }

  lemma SameColumn(s: Schema, cs: seq<Contribution>, ds: seq<Contribution>, k: string)
    requires cs != [] && ds != [] && Elements(cs) == Elements(ds) && Agreeing(s, Elements(cs))
    ensures var a, b := FoldRow(s, cs).columns, FoldRow(s, ds).columns;
            (k in a <==> k in b) && (k in a ==> a[k] == b[k])
  {
    hide FoldRow;
    var u := FoldRowColumn(s, cs, k);
    var v := FoldRowColumn(s, ds, k);
    SameWriters(s, cs, ds, k);
    SameWriters(s, ds, cs, k);
    if k in FoldRow(s, cs).columns {
      assert cs[u] in Elements(cs) && ds[v] in Elements(cs);
      assert k in Written(s, cs[u]) && k in Written(s, ds[v]);
    }
  }

  lemma TopOfFirst(s: Schema, cs: seq<Contribution>, i: nat)
    requires FirstOfTopRank(s, cs, i)
    ensures TopRanked(s, Elements(cs), cs[i])
  {
    forall d | d in Elements(cs) ensures Rank(s, d.state) <= Rank(s, cs[i].state) {
      var j :| 0 <= j < |cs| && cs[j] == d;
    }
  }

  lemma SameWriters(s: Schema, cs: seq<Contribution>, ds: seq<Contribution>, k: string)
    requires cs != [] && ds != [] && Elements(cs) == Elements(ds)
    ensures k in FoldRow(s, cs).columns ==> k in FoldRow(s, ds).columns
  {
    var i := FoldRowColumn(s, cs, k);
    var j := FoldRowColumn(s, ds, k);
    if k in FoldRow(s, cs).columns {
      assert cs[i] in Elements(ds);
      var h :| 0 <= h < |ds| && ds[h] == cs[i];
    }
  }

  /** The same contributions with the one at `i` moved to the front or to the back. */
  function MovedFirst<T>(cs: seq<T>, i: nat): seq<T>
    requires i < |cs|
  {
    [cs[i]] + cs[..i] + cs[i + 1..]
  }

  function MovedLast<T>(cs: seq<T>, i: nat): seq<T>
    requires i < |cs|
  {
    cs[..i] + cs[i + 1..] + [cs[i]]
  }

  lemma MovedIsPermutation<T>(cs: seq<T>, i: nat)
    requires i < |cs|
    ensures multiset(MovedFirst(cs, i)) == multiset(cs) == multiset(MovedLast(cs, i))
  {
    assert cs == cs[..i] + [cs[i]] + cs[i + 1..];
  }

  lemma SameMultisetSameElements<T>(cs: seq<T>, ds: seq<T>)
    requires multiset(cs) == multiset(ds)
    ensures Elements(cs) == Elements(ds)
    ensures cs == [] <==> ds == []
  {
    forall c ensures c in Elements(cs) <==> c in Elements(ds) {
      assert c in Elements(cs) <==> c in multiset(cs);
      assert c in Elements(ds) <==> c in multiset(ds);
    }
    assert |multiset(cs)| == |cs| && |multiset(ds)| == |ds|;
  }

  /** A contribution of the highest rank decides the state when it arrives first. */
  lemma TopRankedFirstWins(s: Schema, cs: seq<Contribution>, i: nat)
    requires i < |cs| && TopRanked(s, Elements(cs), cs[i])
    ensures FoldRow(s, MovedFirst(cs, i)).state == cs[i].state
  {
    var ds := MovedFirst(cs, i);
    MovedIsPermutation(cs, i);
    SameMultisetSameElements(cs, ds);
    var f := FoldRowState(s, ds);
    assert ds[0] == cs[i] && ds[f] in Elements(ds);
  }

  /** A writer that arrives last decides its column. */
  lemma LastWriterWins(s: Schema, cs: seq<Contribution>, i: nat, k: string)
    requires i < |cs| && k in Written(s, cs[i])
    ensures k in FoldRow(s, MovedLast(cs, i)).columns
    ensures FoldRow(s, MovedLast(cs, i)).columns[k] == Written(s, cs[i])[k]
  {
    var ds := MovedLast(cs, i);
    assert ds[|ds| - 1] == cs[i];
    var w := FoldRowColumn(s, ds, k);
  }

  lemma OrderInsensitiveStates(s: Schema, cs: seq<Contribution>, c: Contribution, d: Contribution)
    requires cs != [] && OrderInsensitive(s, cs)
    requires TopRanked(s, Elements(cs), c) && TopRanked(s, Elements(cs), d)
    ensures c.state == d.state
  {
    var i :| 0 <= i < |cs| && cs[i] == c;
    var j :| 0 <= j < |cs| && cs[j] == d;
    MovedIsPermutation(cs, i);
    MovedIsPermutation(cs, j);
    TopRankedFirstWins(s, cs, i);
    TopRankedFirstWins(s, cs, j);
    assert FoldRow(s, MovedFirst(cs, i)) == FoldRow(s, cs) == FoldRow(s, MovedFirst(cs, j));
  }

  lemma OrderInsensitiveColumns(s: Schema, cs: seq<Contribution>, c: Contribution, d: Contribution, k: string)
    requires cs != [] && OrderInsensitive(s, cs)
    requires c in cs && d in cs && k in Written(s, c) && k in Written(s, d)
    ensures Written(s, c)[k] == Written(s, d)[k]
  {
    var i :| 0 <= i < |cs| && cs[i] == c;
    var j :| 0 <= j < |cs| && cs[j] == d;
    MovedIsPermutation(cs, i);
    MovedIsPermutation(cs, j);
    LastWriterWins(s, cs, i, k);
    LastWriterWins(s, cs, j, k);
    assert FoldRow(s, MovedLast(cs, i)) == FoldRow(s, cs) == FoldRow(s, MovedLast(cs, j));
  }

  /**
   * "Legs may arrive in any order" holds of a set of contributions if and only if they agree: equal
   * ranks keep the first arrival and a clashing column keeps the last, so any other set can be told
   * apart by two orders.
   */
  lemma OrderInsensitiveIffAgreeing(s: Schema, cs: seq<Contribution>)
    requires cs != []
    ensures OrderInsensitive(s, cs) <==> Agreeing(s, Elements(cs))
  {
    if Agreeing(s, Elements(cs)) {
      forall ds: seq<Contribution> | multiset(ds) == multiset(cs) && ds != []
        ensures FoldRow(s, ds) == FoldRow(s, cs)
      {
        SameMultisetSameElements(cs, ds);
        SameContributionsSameRow(s, cs, ds);
      }
    }
    if OrderInsensitive(s, cs) {
      forall c, d | TopRanked(s, Elements(cs), c) && TopRanked(s, Elements(cs), d) ensures c.state == d.state {
        OrderInsensitiveStates(s, cs, c, d);
      }
      forall c, d, k | c in Elements(cs) && d in Elements(cs) && k in Written(s, c) && k in Written(s, d)
        ensures Written(s, c)[k] == Written(s, d)[k]
      {
        OrderInsensitiveColumns(s, cs, c, d, k);
      }
    }
  }

  /** It matters for two legs that write one column differently: the row tells which came last. */
  lemma OrderCanMatter(s: Schema, state: string, column: string, one: string, other: string)
    requires column in s.columns && one != other
    ensures var c, d := Contribution(state, map[column := one]), Contribution(state, map[column := other]);
      && FoldRow(s, [c, d]).columns == map[column := other]
      && FoldRow(s, [d, c]).columns == map[column := one]
      && !OrderInsensitive(s, [c, d])
  {
    var c, d := Contribution(state, map[column := one]), Contribution(state, map[column := other]);
    assert [c, d][..1] == [c] && [d, c][..1] == [d];
    assert multiset([c, d]) == multiset([d, c]);
    assert FoldRow(s, [c, d]).columns[column] != FoldRow(s, [d, c]).columns[column];
  }
}
