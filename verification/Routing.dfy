/**
 * The routing index: which legs claim an event, looked up by chain, emitting address and topic. It is
 * built by walking flows, legs, watch entries and addresses; it must agree with the plain relation
 * "some watch entry puts this leg on this contract".
 */
module Routing {
  import opened Wrappers
  import opened Flows
  import Text

  /** One contract set to index. */
  datatype Watch = Watch(chain: string, role: string, at: seq<string>)

  type Index = map<string, seq<LegRef>>

  /** A route's identity, as the text the map is keyed by. */
  function RouteKey(chain: string, address: string, topic: string): string {
    chain + ":" + Text.Lower(address) + ":" + Text.Lower(topic)
  }

  /** Whether a watch entry is one a leg reads its role on. */
  predicate On(leg: Leg, w: Watch) {
    w.role == leg.role && (leg.chains.Some? ==> w.chain in leg.chains.value)
  }

  /** The plain relation: some entry the leg reads, at some address, has this route key. */
  ghost predicate Claims(leg: Leg, watches: seq<Watch>, key: string) {
    exists i: nat, j: nat :: ClaimsAt(leg, watches, i, j, key)
  }

  predicate ClaimsAt(leg: Leg, watches: seq<Watch>, i: nat, j: nat, key: string) {
    && i < |watches|
    && j < |watches[i].at|
    && On(leg, watches[i])
    && RouteKey(watches[i].chain, watches[i].at[j], leg.topic) == key
  }

  /** The leg object with this identity is at one of the places. */
  predicate HoldsLeg(flows: seq<Flow>, refs: seq<LegRef>, id: nat)
    requires ValidRefs(flows, refs)
  {
    exists i | 0 <= i < |refs| :: LegAt(flows, refs[i]).id == id
  }

  /** The legs of `refs` that claim a key, in their order, each leg object where it comes first. */
  ghost function Claiming(flows: seq<Flow>, watches: seq<Watch>, refs: seq<LegRef>, key: string): (got: seq<LegRef>)
    requires ValidRefs(flows, refs)
    ensures ValidRefs(flows, got)
  {
    if refs == [] then []
    else
      var last := refs[|refs| - 1];
      var before := Claiming(flows, watches, refs[..|refs| - 1], key);
      before + if AddsLeg(flows, watches, before, last, key) then [last] else []
  }

  /** A leg claims the key, and its object is not there yet. */
  ghost predicate AddsLeg(flows: seq<Flow>, watches: seq<Watch>, before: seq<LegRef>, ref: LegRef, key: string)
    requires ValidRef(flows, ref) && ValidRefs(flows, before)
  {
    Claims(LegAt(flows, ref), watches, key) && !HoldsLeg(flows, before, LegAt(flows, ref).id)
  }

  /** The first `n` legs of a flow, and all legs of the first `n` flows, in definition order. */
  function LegsOf(flow: nat, n: nat): seq<LegRef> {
    if n == 0 then [] else LegsOf(flow, n - 1) + [LegRef(flow, n - 1)]
  }

  function LegsOfFirst(flows: seq<Flow>, n: nat): seq<LegRef>
    requires n <= |flows|
  {
    if n == 0 then [] else LegsOfFirst(flows, n - 1) + LegsOf(n - 1, |flows[n - 1].legs|)
  }

  function AllLegs(flows: seq<Flow>): seq<LegRef> {
    LegsOfFirst(flows, |flows|)
  }

  function Lookup(index: Index, key: string): seq<LegRef> {
    if key in index then index[key] else []
  }

  /** Legs before `(flow, leg)` in definition order. */
  predicate Before(a: LegRef, b: LegRef) {
    a.flow < b.flow || (a.flow == b.flow && a.leg < b.leg)
  }

  ghost predicate InOrder(refs: seq<LegRef>) {
    forall i, j | 0 <= i < j < |refs| :: Before(refs[i], refs[j])
  }

  lemma {:induction false} LegsOfValid(flows: seq<Flow>, flow: nat, n: nat)
    requires flow < |flows| && n <= |flows[flow].legs|
    ensures ValidRefs(flows, LegsOf(flow, n)) && InOrder(LegsOf(flow, n))
    ensures |LegsOf(flow, n)| == n && forall i | 0 <= i < n :: LegsOf(flow, n)[i] == LegRef(flow, i)
  {
    if n > 0 {
      LegsOfValid(flows, flow, n - 1);
    }
  }

  lemma {:induction false} LegsOfFirstValid(flows: seq<Flow>, n: nat)
    requires n <= |flows|
    ensures ValidRefs(flows, LegsOfFirst(flows, n)) && InOrder(LegsOfFirst(flows, n))
    ensures forall i | 0 <= i < |LegsOfFirst(flows, n)| :: LegsOfFirst(flows, n)[i].flow < n
    ensures forall ref | ValidRef(flows, ref) && ref.flow < n :: ref in LegsOfFirst(flows, n)
  {
    if n > 0 {
      LegsOfFirstValid(flows, n - 1);
      LegsOfValid(flows, n - 1, |flows[n - 1].legs|);
      var a, b := LegsOfFirst(flows, n - 1), LegsOf(n - 1, |flows[n - 1].legs|);
      forall ref | ValidRef(flows, ref) && ref.flow < n ensures ref in a + b {
        if ref.flow == n - 1 {
          assert b[ref.leg] == ref;
        }
      }
    }
  }

  /** The place claims the key, and no place before it that does holds the same leg object. */
  ghost predicate FirstToClaim(flows: seq<Flow>, watches: seq<Watch>, refs: seq<LegRef>, ref: LegRef, key: string)
    requires ValidRefs(flows, refs)
  {
    && ref in refs && ValidRef(flows, ref) && Claims(LegAt(flows, ref), watches, key)
    && forall i | 0 <= i < |refs| && Before(refs[i], ref) && LegAt(flows, refs[i]).id == LegAt(flows, ref).id ::
         !Claims(LegAt(flows, refs[i]), watches, key)
  }

  ghost predicate DistinctLegs(flows: seq<Flow>, refs: seq<LegRef>)
    requires ValidRefs(flows, refs)
  {
    forall i, j | 0 <= i < j < |refs| :: LegAt(flows, refs[i]).id != LegAt(flows, refs[j]).id
  }

  /** What the lookup holds of the places: each claiming leg object exactly once, where it comes first. */
  ghost predicate Exact(flows: seq<Flow>, watches: seq<Watch>, refs: seq<LegRef>, got: seq<LegRef>, key: string)
    requires ValidRefs(flows, refs) && ValidRefs(flows, got)
  {
    && InOrder(got) && DistinctLegs(flows, got)
    && (forall ref :: ref in got <==> FirstToClaim(flows, watches, refs, ref, key))
    && (forall i | 0 <= i < |refs| && Claims(LegAt(flows, refs[i]), watches, key) ::
          HoldsLeg(flows, got, LegAt(flows, refs[i]).id))
  }

  /** The reference relation lists each claiming leg object exactly once, in definition order. */
  lemma {:induction false} ClaimingIsExact(flows: seq<Flow>, watches: seq<Watch>, refs: seq<LegRef>, key: string)
    requires ValidRefs(flows, refs) && InOrder(refs)
    ensures Exact(flows, watches, refs, Claiming(flows, watches, refs, key), key)
  {
    if refs != [] {
      var n := |refs| - 1;
      var front, last := refs[..n], refs[n];
      assert forall i | 0 <= i < n :: front[i] == refs[i];
      ClaimingIsExact(flows, watches, front, key);
      assert refs == front + [last];
      ExactByOne(flows, watches, front, last, Claiming(flows, watches, front, key), key);
    }
  }

  /** One more place at the end adds itself exactly if it claims and its leg is not there. */
  lemma ExactByOne(
      flows: seq<Flow>, watches: seq<Watch>, front: seq<LegRef>, last: LegRef, before: seq<LegRef>,
      key: string)
    requires ValidRefs(flows, front) && ValidRef(flows, last) && ValidRefs(flows, before)
    requires forall i | 0 <= i < |front| :: Before(front[i], last)
    requires Exact(flows, watches, front, before, key)
    ensures ValidRefs(flows, front + [last])
    ensures Exact(flows, watches, front + [last],
                  before + if AddsLeg(flows, watches, before, last, key) then [last] else [], key)
  {
    hide Claims;
    var refs := front + [last];
    var got := before + if AddsLeg(flows, watches, before, last, key) then [last] else [];
    forall i | 0 <= i < |before| ensures before[i] in front && Before(before[i], last) {
      assert FirstToClaim(flows, watches, front, before[i], key);
    }
    forall ref ensures ref in got <==> FirstToClaim(flows, watches, refs, ref, key) {
      if ref == last {
        LastIsFirst(flows, watches, front, last, before, key);
      } else {
        EarlierIsFirst(flows, watches, front, last, ref, key);
      }
    }
    forall i | 0 <= i < |refs| && Claims(LegAt(flows, refs[i]), watches, key)
      ensures HoldsLeg(flows, got, LegAt(flows, refs[i]).id)
    {
      StillHolds(flows, before, got, LegAt(flows, refs[i]).id);
      if i == |front| && got != before {
        assert got[|before|] == last;
      }
    }
  }

  lemma StillHolds(flows: seq<Flow>, before: seq<LegRef>, got: seq<LegRef>, id: nat)
    requires ValidRefs(flows, before) && ValidRefs(flows, got) && before <= got
    ensures HoldsLeg(flows, before, id) ==> HoldsLeg(flows, got, id)
  {
    if HoldsLeg(flows, before, id) {
      var i :| 0 <= i < |before| && LegAt(flows, before[i]).id == id;
      assert got[i] == before[i];
    }
  }

  lemma LastIsFirst(
      flows: seq<Flow>, watches: seq<Watch>, front: seq<LegRef>, last: LegRef, before: seq<LegRef>,
      key: string)
    requires ValidRefs(flows, front) && ValidRef(flows, last) && ValidRefs(flows, before)
    requires forall i | 0 <= i < |front| :: Before(front[i], last)
    requires Exact(flows, watches, front, before, key)
    ensures ValidRefs(flows, front + [last]) && last !in before
    ensures AddsLeg(flows, watches, before, last, key) <==> FirstToClaim(flows, watches, front + [last], last, key)
  {
    hide Claims, InOrder, DistinctLegs;
    var refs, id := front + [last], LegAt(flows, last).id;
    assert refs[|front|] == last && forall i | 0 <= i < |front| :: refs[i] == front[i];
    if HoldsLeg(flows, before, id) {
      var i :| 0 <= i < |before| && LegAt(flows, before[i]).id == id;
      assert FirstToClaim(flows, watches, front, before[i], key);
      var j :| 0 <= j < |front| && front[j] == before[i];
      assert refs[j] == before[i];
    }
    assert last in before ==> FirstToClaim(flows, watches, front, last, key);
  }

  lemma EarlierIsFirst(
      flows: seq<Flow>, watches: seq<Watch>, front: seq<LegRef>, last: LegRef, ref: LegRef, key: string)
    requires ValidRefs(flows, front) && ValidRef(flows, last) && ref != last
    requires forall i | 0 <= i < |front| :: Before(front[i], last)
    ensures ValidRefs(flows, front + [last])
    ensures FirstToClaim(flows, watches, front, ref, key) <==> FirstToClaim(flows, watches, front + [last], ref, key)
  {
    hide Claims;
    var refs := front + [last];
    assert refs[|front|] == last && forall i | 0 <= i < |front| :: refs[i] == front[i];
    assert ref in refs <==> ref in front;
    if ref in front {
      var j :| 0 <= j < |front| && front[j] == ref;
      assert Before(front[j], last) && !Before(last, ref);
    }
  }

  /** What watch entries up to the `i`-th, and addresses of that one up to the `j`-th, claim. */
  ghost predicate ClaimsUpTo(leg: Leg, watches: seq<Watch>, i: nat, j: nat, key: string) {
    exists a: nat, b: nat :: ClaimsAt(leg, watches, a, b, key) && (a < i || (a == i && b < j))
  }

  /** The index agrees with the plain relation for the legs in `refs`. */
  ghost predicate Indexed(routes: Index, flows: seq<Flow>, watches: seq<Watch>, refs: seq<LegRef>) {
    && ValidRefs(flows, refs)
    && forall key :: Lookup(routes, key) == Claiming(flows, watches, refs, key)
  }

  /** Builds the index the way the reader's constructor does. */
  class Router {
    var routes: Index
    var chains: seq<string>

    constructor (flows: seq<Flow>, watches: seq<Watch>)
      ensures Indexed(routes, flows, watches, AllLegs(flows))
      ensures ReadsChains(flows, watches, AllLegs(flows), chains)
    {
      routes, chains := map[], [];
      new;
      for f := 0 to |flows|
        invariant Indexed(routes, flows, watches, LegsOfFirst(flows, f))
        invariant ReadsChains(flows, watches, LegsOfFirst(flows, f), chains)
      {
        AddFlow(flows, watches, f);
      }
    }

    method AddFlow(flows: seq<Flow>, watches: seq<Watch>, f: nat)
      requires f < |flows| && Indexed(routes, flows, watches, LegsOfFirst(flows, f))
      requires ReadsChains(flows, watches, LegsOfFirst(flows, f), chains)
      modifies this
      ensures Indexed(routes, flows, watches, LegsOfFirst(flows, f + 1))
      ensures ReadsChains(flows, watches, LegsOfFirst(flows, f + 1), chains)
    {
      hide Claiming, ReadsChains;
      ghost var done := LegsOfFirst(flows, f);
      assert done + LegsOf(f, 0) == done;
      for l := 0 to |flows[f].legs|
        invariant Indexed(routes, flows, watches, done + LegsOf(f, l))
        invariant ReadsChains(flows, watches, done + LegsOf(f, l), chains)
      {
        LegsOfFirstValid(flows, f);
        LegsOfValid(flows, f, l);
        assert done + LegsOf(f, l + 1) == done + LegsOf(f, l) + [LegRef(f, l)];
        AddLeg(flows, watches, LegRef(f, l), done + LegsOf(f, l));
      }
    }

    /** One leg over every watch entry. */
    method AddLeg(flows: seq<Flow>, watches: seq<Watch>, ref: LegRef, ghost refs: seq<LegRef>)
      requires ValidRef(flows, ref) && Indexed(routes, flows, watches, refs)
      requires ReadsChains(flows, watches, refs, chains)
      modifies this
      ensures Indexed(routes, flows, watches, refs + [ref])
      ensures ReadsChains(flows, watches, refs + [ref], chains)
    {
      var leg := LegAt(flows, ref);
      ghost var was, had := routes, chains;
      ProgressStart(was, flows, ref, watches);
      for i := 0 to |watches|
        invariant Progress(was, routes, flows, ref, watches, i, 0)
        invariant ReadUpTo(had, chains, leg, watches, i)
      {
        if On(leg, watches[i]) {
          if watches[i].chain !in chains {
            chains := chains + [watches[i].chain];
          }
          AddEntry(flows, ref, watches, i, was);
        }
        ProgressByEntry(was, routes, flows, ref, watches, i);
      }
      ProgressDone(was, routes, flows, watches, refs, ref);
      ReadsOneMore(flows, watches, refs, ref, had, chains);
    }

    /** One leg over every address of one watch entry. */
    method AddEntry(flows: seq<Flow>, ref: LegRef, watches: seq<Watch>, i: nat, ghost was: Index)
      requires ValidRef(flows, ref) && i < |watches| && On(LegAt(flows, ref), watches[i])
      requires Progress(was, routes, flows, ref, watches, i, 0)
      modifies this`routes
      ensures Progress(was, routes, flows, ref, watches, i, |watches[i].at|)
    {
      var w, leg := watches[i], LegAt(flows, ref);
      for j := 0 to |w.at|
        invariant Progress(was, routes, flows, ref, watches, i, j)
      {
        var key := RouteKey(w.chain, w.at[j], leg.topic);
        var here := Lookup(routes, key);
        ProgressByAddress(was, routes, flows, ref, watches, i, j);
        if !HoldsLeg(flows, here, leg.id) {
          routes := routes[key := here + [ref]];
        }
      }
    }
  }

  /** The chains read so far: those had before, and those of the entries the leg is on. */
  ghost predicate ReadUpTo(had: seq<string>, chains: seq<string>, leg: Leg, watches: seq<Watch>, i: nat) {
    forall c :: c in chains <==>
      c in had || exists a | 0 <= a < i && a < |watches| :: On(leg, watches[a]) && watches[a].chain == c
  }

  /** One leg's routes after some entries and addresses: the old ones, and its own where it claims anew. */
  ghost predicate Progress(was: Index, now: Index, flows: seq<Flow>, ref: LegRef, watches: seq<Watch>, i: nat, j: nat)
    requires ValidRef(flows, ref)
  {
    forall key ::
      ProgressAt(Lookup(was, key), Lookup(now, key), flows, ref, ClaimsUpTo(LegAt(flows, ref), watches, i, j, key))
  }

  ghost predicate ProgressAt(was: seq<LegRef>, now: seq<LegRef>, flows: seq<Flow>, ref: LegRef, claimed: bool)
    requires ValidRef(flows, ref)
  {
    && ValidRefs(flows, was) && ValidRefs(flows, now)
    && now == was + if claimed && !HoldsLeg(flows, was, LegAt(flows, ref).id) then [ref] else []
  }

  lemma AddressClaims(leg: Leg, watches: seq<Watch>, i: nat, j: nat, key: string)
    requires i < |watches| && j < |watches[i].at| && On(leg, watches[i])
    ensures ClaimsUpTo(leg, watches, i, j + 1, key) <==>
              ClaimsUpTo(leg, watches, i, j, key) || key == RouteKey(watches[i].chain, watches[i].at[j], leg.topic)
  {
    assert ClaimsAt(leg, watches, i, j, key) <==> key == RouteKey(watches[i].chain, watches[i].at[j], leg.topic);
  }

  lemma ProgressStart(was: Index, flows: seq<Flow>, ref: LegRef, watches: seq<Watch>)
    requires ValidRef(flows, ref) && forall key :: ValidRefs(flows, Lookup(was, key))
    ensures Progress(was, was, flows, ref, watches, 0, 0)
  {
  }

  /** An address once claimed: whether the leg is added now or was there, it is there once. */
  lemma ClaimedOnce(was: seq<LegRef>, now: seq<LegRef>, flows: seq<Flow>, ref: LegRef, claimed: bool)
    requires ValidRef(flows, ref) && ProgressAt(was, now, flows, ref, claimed)
    ensures ProgressAt(was, if HoldsLeg(flows, now, LegAt(flows, ref).id) then now else now + [ref], flows, ref, true)
  {
    var id := LegAt(flows, ref).id;
    if HoldsLeg(flows, was, id) {
      var i :| 0 <= i < |was| && LegAt(flows, was[i]).id == id;
      assert now[i] == was[i];
    } else if claimed {
      assert now[|was|] == ref;
    }
  }

  lemma ProgressByAddress(was: Index, now: Index, flows: seq<Flow>, ref: LegRef, watches: seq<Watch>, i: nat, j: nat)
    requires ValidRef(flows, ref) && Progress(was, now, flows, ref, watches, i, j)
    requires i < |watches| && j < |watches[i].at| && On(LegAt(flows, ref), watches[i])
    ensures var key := RouteKey(watches[i].chain, watches[i].at[j], LegAt(flows, ref).topic);
            var here := Lookup(now, key);
            && ValidRefs(flows, here)
            && Progress(was, if HoldsLeg(flows, here, LegAt(flows, ref).id) then now else now[key := here + [ref]],
                        flows, ref, watches, i, j + 1)
  {
    hide ClaimsUpTo, RouteKey, HoldsLeg;
    var leg := LegAt(flows, ref);
    var key := RouteKey(watches[i].chain, watches[i].at[j], leg.topic);
    var here := Lookup(now, key);
    assert ProgressAt(Lookup(was, key), here, flows, ref, ClaimsUpTo(leg, watches, i, j, key));
    ClaimedOnce(Lookup(was, key), here, flows, ref, ClaimsUpTo(leg, watches, i, j, key));
    var next := if HoldsLeg(flows, here, leg.id) then now else now[key := here + [ref]];
    forall k ensures ProgressAt(Lookup(was, k), Lookup(next, k), flows, ref, ClaimsUpTo(leg, watches, i, j + 1, k)) {
      AddressClaims(leg, watches, i, j, k);
      assert ProgressAt(Lookup(was, k), Lookup(now, k), flows, ref, ClaimsUpTo(leg, watches, i, j, k));
    }
  }

  /** The end of an entry's addresses is the start of the next entry, whether or not the leg is on it. */
  lemma ProgressByEntry(was: Index, now: Index, flows: seq<Flow>, ref: LegRef, watches: seq<Watch>, i: nat)
    requires ValidRef(flows, ref) && i < |watches|
    requires Progress(was, now, flows, ref, watches, i,
                      if On(LegAt(flows, ref), watches[i]) then |watches[i].at| else 0)
    ensures Progress(was, now, flows, ref, watches, i + 1, 0)
  {
    hide ProgressAt;
    var leg := LegAt(flows, ref);
    var j := if On(leg, watches[i]) then |watches[i].at| else 0;
    forall k ensures ProgressAt(Lookup(was, k), Lookup(now, k), flows, ref, ClaimsUpTo(leg, watches, i + 1, 0, k)) {
      assert ClaimsUpTo(leg, watches, i + 1, 0, k) <==> ClaimsUpTo(leg, watches, i, j, k);
      assert ProgressAt(Lookup(was, k), Lookup(now, k), flows, ref, ClaimsUpTo(leg, watches, i, j, k));
    }
  }

  lemma ProgressDone(was: Index, now: Index, flows: seq<Flow>, watches: seq<Watch>, refs: seq<LegRef>, ref: LegRef)
    requires ValidRef(flows, ref) && ValidRefs(flows, refs)
    requires Indexed(was, flows, watches, refs)
    requires Progress(was, now, flows, ref, watches, |watches|, 0)
    ensures Indexed(now, flows, watches, refs + [ref])
  {
    var leg := LegAt(flows, ref);
    assert (refs + [ref])[..|refs|] == refs;
    forall key ensures Lookup(now, key) == Claiming(flows, watches, refs + [ref], key) {
      assert ClaimsUpTo(leg, watches, |watches|, 0, key) <==> Claims(leg, watches, key);
      assert ProgressAt(Lookup(was, key), Lookup(now, key), flows, ref, Claims(leg, watches, key));
    }
  }

  /** The chains some of `refs` read: those of the watch entries their legs are on. */
  ghost predicate ReadsChains(flows: seq<Flow>, watches: seq<Watch>, refs: seq<LegRef>, chains: seq<string>)
    requires ValidRefs(flows, refs)
  {
    forall c :: c in chains <==> ReadBy(flows, watches, refs, c)
  }

  ghost predicate ReadBy(flows: seq<Flow>, watches: seq<Watch>, refs: seq<LegRef>, c: string)
    requires ValidRefs(flows, refs)
  {
    exists k, a | 0 <= k < |refs| && 0 <= a < |watches| ::
      On(LegAt(flows, refs[k]), watches[a]) && watches[a].chain == c
  }

  lemma ReadsOneMore(
      flows: seq<Flow>, watches: seq<Watch>, refs: seq<LegRef>, ref: LegRef, had: seq<string>,
      chains: seq<string>)
    requires ValidRefs(flows, refs) && ValidRef(flows, ref) && ReadsChains(flows, watches, refs, had)
    requires ReadUpTo(had, chains, LegAt(flows, ref), watches, |watches|)
    ensures ValidRefs(flows, refs + [ref]) && ReadsChains(flows, watches, refs + [ref], chains)
  {
    var more := refs + [ref];
    forall c ensures c in chains <==> ReadBy(flows, watches, more, c) {
      if c in had {
        var k, a :| 0 <= k < |refs| && 0 <= a < |watches|
          && On(LegAt(flows, refs[k]), watches[a]) && watches[a].chain == c;
        assert more[k] == refs[k];
      } else if c in chains {
        assert more[|refs|] == ref;
      }
      if ReadBy(flows, watches, more, c) {
        var k, a :| 0 <= k < |more| && 0 <= a < |watches|
          && On(LegAt(flows, more[k]), watches[a]) && watches[a].chain == c;
        assert k < |refs| ==> more[k] == refs[k];
      }
    }
  }

  /**
   * For every key the lookup lists each leg object some watch entry claims it for exactly once, at its first
   * place in definition order, and nothing else; and the chains drained are those of the entries some leg
   * is on.
   */
  lemma IndexIsExact(routes: Index, chains: seq<string>, flows: seq<Flow>, watches: seq<Watch>, key: string)
    requires Indexed(routes, flows, watches, AllLegs(flows))
    requires ReadsChains(flows, watches, AllLegs(flows), chains)
    ensures ValidRefs(flows, Lookup(routes, key)) && InOrder(Lookup(routes, key))
    ensures DistinctLegs(flows, Lookup(routes, key))
    ensures forall ref :: ref in Lookup(routes, key) <==>
              && ValidRef(flows, ref) && Claims(LegAt(flows, ref), watches, key)
              && forall r | ValidRef(flows, r) && Before(r, ref) && LegAt(flows, r).id == LegAt(flows, ref).id ::
                   !Claims(LegAt(flows, r), watches, key)
    ensures forall ref | ValidRef(flows, ref) && Claims(LegAt(flows, ref), watches, key) ::
              HoldsLeg(flows, Lookup(routes, key), LegAt(flows, ref).id)
    ensures forall c :: c in chains <==>
              exists ref, i | ValidRef(flows, ref) && 0 <= i < |watches| ::
                  && watches[i].chain == c && watches[i].role == LegAt(flows, ref).role
                  && (LegAt(flows, ref).chains.None? || c in LegAt(flows, ref).chains.value)
  {
    var all := AllLegs(flows);
    LegsOfFirstValid(flows, |flows|);
    ClaimingIsExact(flows, watches, all, key);
    forall c
      ensures c in chains <==>
                exists ref, i | ValidRef(flows, ref) && 0 <= i < |watches| ::
                  On(LegAt(flows, ref), watches[i]) && watches[i].chain == c
    {
      if c in chains {
        var k, a :| 0 <= k < |all| && 0 <= a < |watches|
          && On(LegAt(flows, all[k]), watches[a]) && watches[a].chain == c;
        assert ValidRef(flows, all[k]);
      }
    }
  }

  // ---------- The key as text ----------

  lemma Joined(a: string, x: string)
    ensures (a + ":" + x)[0] == if a == [] then ':' else a[0]
    ensures (a + ":" + x)[1..] == if a == [] then x else a[1..] + ":" + x
  {
  }

  lemma {:induction false} FirstColon(a: string, b: string, x: string, y: string)
    requires ':' !in a && ':' !in b && a + ":" + x == b + ":" + y
    ensures a == b && x == y
  {
    Joined(a, x);
    Joined(b, y);
    assert (a != [] ==> a[0] in a) && (b != [] ==> b[0] in b);
    if a != [] {
      FirstColon(a[1..], b[1..], x, y);
    }
  }

  lemma LowerHasNoColon(s: string)
    requires ':' !in s
    ensures ':' !in Text.Lower(s)
  {
    forall i | 0 <= i < |s| ensures Text.Lower(s)[i] != ':' {
      assert s[i] in s;
    }
  }

  /** Chains and addresses without a colon are told apart by their keys, up to the case of the rest. */
  lemma RouteKeyInjective(c: string, a: string, t: string, d: string, b: string, u: string)
    requires ':' !in c && ':' !in d && ':' !in a && ':' !in b
    requires RouteKey(c, a, t) == RouteKey(d, b, u)
    ensures c == d && Text.Lower(a) == Text.Lower(b) && Text.Lower(t) == Text.Lower(u)
  {
    LowerHasNoColon(a);
    LowerHasNoColon(b);
    var x, y := Text.Lower(a) + ":" + Text.Lower(t), Text.Lower(b) + ":" + Text.Lower(u);
    assert c + ":" + x == RouteKey(c, a, t) && d + ":" + y == RouteKey(d, b, u);
    FirstColon(c, d, x, y);
    FirstColon(Text.Lower(a), Text.Lower(b), Text.Lower(t), Text.Lower(u));
  }

  /**
   * An event goes to a leg exactly when some watch entry of the event's chain, with the leg's role and, if
   * the leg names chains, one of those, lists the event's address, and the leg's topic is the event's.
   */
  lemma ClaimedIff(leg: Leg, watches: seq<Watch>, chain: string, address: string, topic: string)
    requires ':' !in chain && ':' !in address
    requires forall i, j | 0 <= i < |watches| && 0 <= j < |watches[i].at| ::
               ':' !in watches[i].chain && ':' !in watches[i].at[j]
    ensures Claims(leg, watches, RouteKey(chain, address, topic)) <==>
      && Text.Lower(leg.topic) == Text.Lower(topic)
      && exists i, j | 0 <= i < |watches| && 0 <= j < |watches[i].at| ::
           && Text.Lower(watches[i].at[j]) == Text.Lower(address)
           && watches[i].chain == chain && watches[i].role == leg.role
           && (leg.chains.None? || chain in leg.chains.value)
  {
    var key := RouteKey(chain, address, topic);
    forall i: nat, j: nat | i < |watches| && j < |watches[i].at|
      ensures ClaimsAt(leg, watches, i, j, key) <==>
        && On(leg, watches[i]) && watches[i].chain == chain
        && Text.Lower(watches[i].at[j]) == Text.Lower(address) && Text.Lower(leg.topic) == Text.Lower(topic)
    {
      if RouteKey(watches[i].chain, watches[i].at[j], leg.topic) == key {
        RouteKeyInjective(watches[i].chain, watches[i].at[j], leg.topic, chain, address, topic);
      }
    }
    if i, j :| 0 <= i < |watches| && 0 <= j < |watches[i].at| && Text.Lower(watches[i].at[j]) == Text.Lower(address) &&
               watches[i].chain == chain && watches[i].role == leg.role &&
               (leg.chains.None? || chain in leg.chains.value) && Text.Lower(leg.topic) == Text.Lower(topic)
    {
      assert ClaimsAt(leg, watches, i, j, key);
    }
  }
}
