/** Connector coins: the paged listing and the best fit of agents/utxo/src/near/coins.ts. */
module Coins {
  import opened Wrappers

  /** A coin: `txid@vout` and its value, in the chain's base unit. */
  datatype Coin = Coin(id: string, value: int)

  datatype Config = Config(feeMin: int, feeRate: int, minChange: int)

  // ---- Listing ----

  const PAGE := 20

  /** `get_utxos_paged` over one snapshot of the coin set. */
  function PageAt(all: seq<Coin>, from: nat, limit: nat): (page: seq<Coin>)
    ensures |page| <= limit
    ensures |page| == limit || from + |page| >= |all|
  {
    if from >= |all| then [] else if from + limit <= |all| then all[from..from + limit] else all[from..]
  }

  /** `listCoins`: every coin once and in order; a set of whole pages costs one more, empty, page. */
  method ListCoins(all: seq<Coin>) returns (coins: seq<Coin>, pages: nat)
    ensures coins == all
    ensures pages == |all| / 20 + 1
  {
    coins, pages := [], 0;
    var from := 0;
    while true
      invariant from == pages * PAGE <= |all|
      invariant coins == all[..from]
      decreases |all| - from
    {
      var page := PageAt(all, from, PAGE);
      coins, pages := coins + page, pages + 1;
      if |page| < PAGE {
        return;
      }
      from := from + PAGE;
    }
  }

  // ---- Fees ----

  /** Division of big integers: towards zero. */
  function Truncated(n: int, d: int): int
    requires d > 0
  {
    if n >= 0 then n / d else -(-n / d)
  }

  function BridgeFee(config: Config, balance: int): int {
    var rated := Truncated(balance * config.feeRate, 10_000);
    if rated > config.feeMin then rated else config.feeMin
  }

  /** The fee is the balance's share in ten-thousandths, fractions dropped, or the minimum if that is more. */
  lemma BridgeFeeRounds(config: Config, balance: int)
    ensures var fee, share := BridgeFee(config, balance), balance * config.feeRate;
      && fee >= config.feeMin
      && (share >= 0 ==> 10_000 * (fee + 1) > share && (fee == config.feeMin || 10_000 * fee <= share))
      && (share < 0 ==> 10_000 * fee >= share && (fee == config.feeMin || 10_000 * (fee - 1) < share))
  {
    var share := balance * config.feeRate;
    var q := Truncated(share, 10_000);
    assert share >= 0 ==> 10_000 * q <= share < 10_000 * (q + 1);
    assert share < 0 ==> 10_000 * (q - 1) < share <= 10_000 * q;
  }

  /** What the coin has to pay: the user's output and the miner fee. */
  function Need(config: Config, balance: int): int {
    balance - BridgeFee(config, balance)
  }

  // ---- Best fit ----

  predicate Fits(coin: Coin, need: int, minChange: int) {
    coin.value == need || coin.value >= need + minChange
  }

  function Fitting(coins: seq<Coin>, need: int, minChange: int): seq<Coin> {
    if coins == [] then []
    else
      var rest := Fitting(coins[1..], need, minChange);
      if Fits(coins[0], need, minChange) then [coins[0]] + rest else rest
  }

  /** `localeCompare`: negative, zero or positive. */
  type Collation = (string, string) -> int

  /** What `sort` needs of a comparison to have one outcome. */
  ghost predicate Consistent(collate: Collation) {
    && (forall a, b :: collate(a, b) < 0 <==> collate(b, a) > 0)
    && (forall a, b, c :: collate(a, b) <= 0 && collate(b, c) <= 0 ==> collate(a, c) <= 0)
  }

  /** The comparison: by value, then by id. */
  function Compare(a: Coin, b: Coin, collate: Collation): int {
    if a.value == b.value then collate(a.id, b.id) else if a.value < b.value then -1 else 1
  }

  /** The stable sort of `Array.prototype.sort`. */
  function Sorted(coins: seq<Coin>, collate: Collation): (sorted: seq<Coin>)
    ensures |sorted| == |coins|
  {
    if coins == [] then [] else Inserted(coins[0], Sorted(coins[1..], collate), collate)
  }

  /** A coin goes before the first that it does not come after. */
  function Inserted(coin: Coin, sorted: seq<Coin>, collate: Collation): (more: seq<Coin>)
    ensures |more| == |sorted| + 1
  {
    if sorted == [] || Compare(coin, sorted[0], collate) <= 0 then [coin] + sorted
    else [sorted[0]] + Inserted(coin, sorted[1..], collate)
  }

  datatype PickError = FeesUncovered(balance: int) | NoCoin(need: int)

  /** `id.replace("@", ":")`: the first one only. */
  function Outpoint(id: string): (text: string)
    ensures |text| == |id|
  {
    if id == "" then "" else if id[0] == '@' then ":" + id[1..] else [id[0]] + Outpoint(id[1..])
  }

  /** `pickCoin` */
  function PickCoin(coins: seq<Coin>, config: Config, balance: int, minerFee: int, collate: Collation)
    : Result<string, PickError>
  {
    if balance <= BridgeFee(config, balance) + minerFee then Err(FeesUncovered(balance))
    else
      var need := Need(config, balance);
      var fitting := Sorted(Fitting(coins, need, config.minChange), collate);
      if fitting == [] then Err(NoCoin(need)) else Ok(Outpoint(fitting[0].id))
  }

  // ---- What is picked ----

  /** Coin `i` is a best one: it fits, and every other that does costs more, or as much with a later id or place. */
  ghost predicate Best(coins: seq<Coin>, i: nat, need: int, minChange: int, collate: Collation) {
    && i < |coins|
    && (coins[i].value == need || coins[i].value >= need + minChange)
    && forall j | 0 <= j < |coins| && (coins[j].value == need || coins[j].value >= need + minChange) ::
         && coins[i].value <= coins[j].value
         && (coins[i].value == coins[j].value ==>
               collate(coins[i].id, coins[j].id) < 0 || (collate(coins[i].id, coins[j].id) == 0 && i <= j))
  }

  /** Place `i` holds a first among the smallest. */
  ghost predicate Least(coins: seq<Coin>, i: nat, collate: Collation) {
    && i < |coins|
    && forall j | 0 <= j < |coins| ::
         Compare(coins[i], coins[j], collate) < 0 || (Compare(coins[i], coins[j], collate) == 0 && i <= j)
  }

  lemma CompareTransitive(a: Coin, b: Coin, c: Coin, collate: Collation)
    requires Consistent(collate)
    ensures Compare(a, b, collate) < 0 <==> Compare(b, a, collate) > 0
    ensures Compare(a, b, collate) <= 0 && Compare(b, c, collate) <= 0 ==> Compare(a, c, collate) <= 0
    ensures Compare(a, b, collate) <= 0 && Compare(b, c, collate) < 0 ==> Compare(a, c, collate) < 0
    ensures Compare(a, b, collate) < 0 && Compare(b, c, collate) <= 0 ==> Compare(a, c, collate) < 0
  {
    assert collate(a.id, b.id) <= 0 && collate(b.id, c.id) <= 0 ==> collate(a.id, c.id) <= 0;
    assert collate(c.id, a.id) <= 0 && collate(a.id, b.id) <= 0 ==> collate(c.id, b.id) <= 0;
    assert collate(b.id, c.id) <= 0 && collate(c.id, a.id) <= 0 ==> collate(b.id, a.id) <= 0;
  }

  /** The head of a stable sort is the first among the smallest. */
  lemma {:induction false} SortedHead(coins: seq<Coin>, collate: Collation) returns (i: nat)
    requires coins != [] && Consistent(collate)
    ensures Least(coins, i, collate) && Sorted(coins, collate)[0] == coins[i]
  {
    CompareTransitive(coins[0], coins[0], coins[0], collate);
    if |coins| == 1 {
      i := 0;
    } else {
      var k := SortedHead(coins[1..], collate);
      var least := coins[k + 1];
      assert least == coins[1..][k];
      i := if Compare(coins[0], least, collate) <= 0 then 0 else k + 1;
      forall j | 0 <= j < |coins|
        ensures Compare(coins[i], coins[j], collate) < 0 || (Compare(coins[i], coins[j], collate) == 0 && i <= j)
      {
        CompareTransitive(coins[0], least, coins[j], collate);
        if j > 0 {
          assert coins[j] == coins[1..][j - 1];
        }
      }
    }
  }

  /** A place among the fitting coins is a place among all of them, in the same order. */
  lemma {:induction false} FittingHead(coins: seq<Coin>, need: int, minChange: int, collate: Collation, k: nat)
      returns (i: nat)
    requires Least(Fitting(coins, need, minChange), k, collate)
    ensures Best(coins, i, need, minChange, collate) && coins[i] == Fitting(coins, need, minChange)[k]
  {
    var fitting := Fitting(coins, need, minChange);
    i := Place(coins, need, minChange, k);
    forall j | 0 <= j < |coins| && Fits(coins[j], need, minChange)
      ensures coins[i].value <= coins[j].value
      ensures coins[i].value == coins[j].value ==>
        collate(coins[i].id, coins[j].id) < 0 || (collate(coins[i].id, coins[j].id) == 0 && i <= j)
    {
      var m := Rank(coins, need, minChange, j);
      PlaceOfRank(coins, need, minChange, j);
      if k < m {
        PlacesAscend(coins, need, minChange, k, m);
      }
      assert Compare(fitting[k], fitting[m], collate) < 0 || (Compare(fitting[k], fitting[m], collate) == 0 && k <= m);
    }
  }

  /** Where the `k`-th fitting coin stands among all. */
  function Place(coins: seq<Coin>, need: int, minChange: int, k: nat): (i: nat)
    requires k < |Fitting(coins, need, minChange)|
    ensures i < |coins| && coins[i] == Fitting(coins, need, minChange)[k] && Fits(coins[i], need, minChange)
  {
    if !Fits(coins[0], need, minChange) then 1 + Place(coins[1..], need, minChange, k)
    else if k == 0 then 0
    else 1 + Place(coins[1..], need, minChange, k - 1)
  }

  /** How many fitting coins stand before coin `j`. */
  function Rank(coins: seq<Coin>, need: int, minChange: int, j: nat): (k: nat)
    requires j < |coins| && Fits(coins[j], need, minChange)
    ensures k < |Fitting(coins, need, minChange)| && Fitting(coins, need, minChange)[k] == coins[j]
  {
    if j == 0 then 0
    else Rank(coins[1..], need, minChange, j - 1) + if Fits(coins[0], need, minChange) then 1 else 0
  }

  lemma {:induction false} PlaceOfRank(coins: seq<Coin>, need: int, minChange: int, j: nat)
    requires j < |coins| && Fits(coins[j], need, minChange)
    ensures Place(coins, need, minChange, Rank(coins, need, minChange, j)) == j
  {
    if j > 0 {
      PlaceOfRank(coins[1..], need, minChange, j - 1);
    }
  }

  lemma {:induction false} PlacesAscend(coins: seq<Coin>, need: int, minChange: int, k: nat, m: nat)
    requires k < m < |Fitting(coins, need, minChange)|
    ensures Place(coins, need, minChange, k) < Place(coins, need, minChange, m)
  {
    if !Fits(coins[0], need, minChange) {
      PlacesAscend(coins[1..], need, minChange, k, m);
    } else if k > 0 {
      PlacesAscend(coins[1..], need, minChange, k - 1, m - 1);
    }
  }

  /** It throws for the fees exactly when they are not covered, and for want of a coin exactly when none fits. */
  lemma ThrowsIff(coins: seq<Coin>, config: Config, balance: int, minerFee: int, collate: Collation)
    ensures var r := PickCoin(coins, config, balance, minerFee, collate);
      var need := balance - BridgeFee(config, balance);
      && (r == Err(FeesUncovered(balance)) <==> need <= minerFee)
      && (r == Err(NoCoin(need)) <==>
            && need > minerFee
            && forall j | 0 <= j < |coins| :: coins[j].value != need && coins[j].value < need + config.minChange)
      && (r.Err? ==> r.error in {FeesUncovered(balance), NoCoin(need)})
  {
    var need := Need(config, balance);
    var fitting := Fitting(coins, need, config.minChange);
    if fitting != [] {
      assert Fits(coins[Place(coins, need, config.minChange, 0)], need, config.minChange);
    }
    forall j | 0 <= j < |coins| && Fits(coins[j], need, config.minChange) ensures fitting != [] {
      assert Rank(coins, need, config.minChange, j) < |fitting|;
    }
  }

  /**
   * What is returned names a best coin, and the withdrawal adds up: the coin pays a positive user output,
   * the miner fee and change that is nothing or at least the minimum; the balance pays the first two and
   * the bridge fee.
   */
  lemma PickedIsBest(coins: seq<Coin>, config: Config, balance: int, minerFee: int, collate: Collation)
      returns (i: nat, userOutput: int, change: int)
    requires Consistent(collate) && PickCoin(coins, config, balance, minerFee, collate).Ok?
    ensures Best(coins, i, balance - BridgeFee(config, balance), config.minChange, collate)
    ensures PickCoin(coins, config, balance, minerFee, collate) == Ok(Outpoint(coins[i].id))
    ensures userOutput > 0 && (change == 0 || change >= config.minChange)
    ensures coins[i].value == userOutput + minerFee + change
    ensures balance == userOutput + minerFee + BridgeFee(config, balance)
  {
    var need := Need(config, balance);
    var fitting := Fitting(coins, need, config.minChange);
    var k := SortedHead(fitting, collate);
    i := FittingHead(coins, need, config.minChange, collate, k);
    userOutput, change := need - minerFee, coins[i].value - need;
  }

  /** A best coin is unique, so what is picked does not depend on how the sort was done. */
  lemma BestIsUnique(coins: seq<Coin>, i: nat, j: nat, need: int, minChange: int, collate: Collation)
    requires Consistent(collate)
    requires Best(coins, i, need, minChange, collate) && Best(coins, j, need, minChange, collate)
    ensures i == j
  {
    assert collate(coins[i].id, coins[j].id) < 0 <==> collate(coins[j].id, coins[i].id) > 0;
    assert coins[i].value == coins[j].value;
  }

  /** The outpoint: everything but the first `@` stays, and all of an id without one. */
  lemma {:induction false} OutpointOfOther(id: string)
    requires '@' !in id
    ensures Outpoint(id) == id
  {
    if id != "" {
      OutpointOfOther(id[1..]);
    }
  }

  lemma {:induction false} OutpointOf(txid: string, vout: string)
    requires '@' !in txid
    ensures Outpoint(txid + "@" + vout) == txid + ":" + vout
  {
    if txid == "" {
      assert "" + "@" + vout == "@" + vout;
      assert "" + ":" + vout == ":" + vout;
    } else {
      OutpointOf(txid[1..], vout);
      assert (txid + "@" + vout)[1..] == txid[1..] + "@" + vout;
    }
  }
}
