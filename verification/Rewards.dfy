/** Proportional reward distribution: blockchain/contracts/integrity_rewards_contract.go. */
module Rewards {
  import opened Machine
  import opened Sums
  import opened Shares

  const MIN_QUALIFIED_SCORE := 60
  const DEFAULT_INTERVAL := 5082
  const MAX_HISTORY := 100

  /** More nodes than any memory holds; below it the total weight fits into uint64. */
  const MAX_NODES := 0x100_0000_0000_0000

  type NodeId = string

  datatype Node = Node(
    address: Address, score: uint8, status: string, totalRewards: uint64, lastRewardHeight: uint64)

  type Nodes = map<NodeId, Node>

  datatype Event = Event(height: uint64, totalDistributed: uint64, qualifiedNodes: nat, rewards: map<Address, uint64>)

  predicate Qualifies(n: Node) {
    n.status == "active" && n.score >= MIN_QUALIFIED_SCORE
  }

  /** An order in which the runtime may visit the map: every key once. */
  ghost predicate Enumerates(order: seq<NodeId>, nodes: Nodes) {
    && Distinct(order)
    && forall id :: id in nodes <==> id in order
  }

  /** The qualified nodes, each once, in some order. */
  ghost predicate Lists(ids: seq<NodeId>, nodes: Nodes) {
    && Distinct(ids)
    && forall id :: id in ids <==> id in nodes && Qualifies(nodes[id])
  }

  ghost predicate Distinct(ids: seq<NodeId>) {
    forall i, j :: 0 <= i < j < |ids| ==> ids[i] != ids[j]
  }

  function Weight(n: Node): uint64 {
    if Qualifies(n) then n.score else 0
  }

  function Weights(nodes: Nodes): map<NodeId, uint64> {
    map id | id in nodes :: Weight(nodes[id])
  }

  /** The total weight, defined without any order. */
  ghost function TotalWeight(nodes: Nodes): int {
    MapSum(Weights(nodes))
  }

  lemma TotalWeightFits(nodes: Nodes)
    requires |nodes| < MAX_NODES
    ensures 0 <= TotalWeight(nodes) < TWO64
    ensures forall id :: id in nodes && Qualifies(nodes[id]) ==> TotalWeight(nodes) > 0
  {
    var m := Weights(nodes);
    SumBounds(m);
    assert m.Keys == nodes.Keys;
    SumAtMost(m, 255);
    forall id | id in nodes && Qualifies(nodes[id]) ensures MapSum(m) > 0 {
      assert m[id] > 0;
    }
  }

  /** Summing over any list of the qualified nodes is summing over all nodes. */
  lemma ListSum(m: map<NodeId, int>, ids: seq<NodeId>, nodes: Nodes)
    requires Lists(ids, nodes) && m.Keys == nodes.Keys
    requires forall id :: id in nodes && !Qualifies(nodes[id]) ==> m[id] == 0
    ensures forall id :: id in ids ==> id in m
    ensures SumAlong(m, ids) == MapSum(m)
  {
    var kept := set id | id in ids;
    DropZeros(m, kept);
    var n := map k | k in m && k in kept :: m[k];
    AnyOrder(n, ids);
    SumAlongSame(m, n, ids);
  }

  // ----- shares -----

  ghost predicate Payable(nodes: Nodes) {
    0 < TotalWeight(nodes) < TWO64
  }

  function BaseOf(n: Node, pool: uint64, total: uint64): uint64
    requires total > 0
  {
    Base(Weight(n), pool, total)
  }

  /** The base share, and for the top node what the base shares leave of the pool. */
  ghost function Share(nodes: Nodes, pool: uint64, top: NodeId, id: NodeId): (s: uint64)
    requires Payable(nodes) && id in nodes
  {
    BasesFitPool(Weights(nodes), pool);
    assert Weights(nodes)[id] == Weight(nodes[id]);
    BaseOf(nodes[id], pool, TotalWeight(nodes)) + (if id == top then Remainder(Weights(nodes), pool) else 0)
  }

  ghost predicate IsTop(nodes: Nodes, top: NodeId) {
    && top in nodes && Qualifies(nodes[top])
    && forall id :: id in nodes && Qualifies(nodes[id]) ==> nodes[id].score <= nodes[top].score
  }

  /** The node that gets the remainder: one of the highest score, if there is a remainder at all. */
  ghost predicate Chosen(nodes: Nodes, pool: uint64, top: NodeId)
    requires Payable(nodes)
  {
    top in nodes && Qualifies(nodes[top]) && (Remainder(Weights(nodes), pool) > 0 ==> IsTop(nodes, top))
  }

  function PayOne(n: Node, amount: uint64, height: uint64): Node {
    n.(totalRewards := Add(n.totalRewards, amount), lastRewardHeight := height)
  }

  /** The nodes after a distribution. */
  ghost function NodesPaid(nodes: Nodes, pool: uint64, top: NodeId, height: uint64): Nodes
    requires Payable(nodes)
  {
    map id | id in nodes ::
      if Qualifies(nodes[id]) then PayOne(nodes[id], Share(nodes, pool, top, id), height) else nodes[id]
  }

  /** What everybody was paid in all, after a distribution. */
  ghost function PaidInAll(nodes: Nodes, paid: map<NodeId, int>, pool: uint64, top: NodeId): map<NodeId, int>
    requires Payable(nodes) && paid.Keys == nodes.Keys
  {
    map id | id in nodes :: paid[id] + Share(nodes, pool, top, id)
  }

  /** The shares of all nodes together are the pool, to the last token. */
  lemma SharesArePool(nodes: Nodes, paid: map<NodeId, int>, pool: uint64, top: NodeId)
    requires Payable(nodes) && paid.Keys == nodes.Keys && top in nodes
    ensures MapSum(PaidInAll(nodes, paid, pool, top)) == MapSum(paid) + pool
  {
    var bases := Bases(Weights(nodes), pool, TotalWeight(nodes));
    SumsAddExtra(paid, bases, PaidInAll(nodes, paid, pool, top), top, Remainder(Weights(nodes), pool));
  }

  /** The machine tallies are the exact ones modulo 2^64. */
  ghost predicate Tallies(nodes: Nodes, paid: map<NodeId, int>) {
    && nodes.Keys == paid.Keys
    && forall id :: id in nodes ==> paid[id] >= 0 && nodes[id].totalRewards == Wrap(paid[id])
  }

  lemma PayoutTallies(nodes: Nodes, paid: map<NodeId, int>, pool: uint64, top: NodeId, height: uint64)
    requires Tallies(nodes, paid) && Payable(nodes) && Chosen(nodes, pool, top)
    ensures Tallies(NodesPaid(nodes, pool, top, height), PaidInAll(nodes, paid, pool, top))
  {
    var after, paidAfter := NodesPaid(nodes, pool, top, height), PaidInAll(nodes, paid, pool, top);
    forall id | id in nodes ensures paidAfter[id] >= 0 && after[id].totalRewards == Wrap(paidAfter[id]) {
      if Qualifies(nodes[id]) {
        SumWraps(paid[id], Share(nodes, pool, top, id));
      } else {
        BaseOfNothing(nodes[id], pool, TotalWeight(nodes));
      }
    }
  }

  /** Active nodes with a score of 60 or more count, with their score. */
  lemma WeightIs(nodes: Nodes, id: NodeId)
    requires id in nodes
    ensures id in Weights(nodes)
    ensures Weights(nodes)[id] == if nodes[id].status == "active" && nodes[id].score >= 60 then nodes[id].score else 0
  {
  }

  /**
   One node, paid: an active one with a score of 60 or more gets its score's part of the pool, rounded down, the top one the
   remainder as well, and the height is noted; every other node stays as it is.
   */
  lemma PaidNode(nodes: Nodes, pool: uint64, top: NodeId, height: uint64, id: NodeId)
    requires Payable(nodes) && id in nodes
    ensures
      var before, after := nodes[id], NodesPaid(nodes, pool, top, height)[id];
      if before.status == "active" && before.score >= 60 then
        && Share(nodes, pool, top, id) == before.score * pool % TWO64 / TotalWeight(nodes)
                                          + (if id == top then Remainder(Weights(nodes), pool) else 0)
        && after == before.(totalRewards := (before.totalRewards + Share(nodes, pool, top, id)) % TWO64,
                            lastRewardHeight := height)
      else after == before
  {
    MulNonNegative(Weight(nodes[id]), pool);
    WrapIsModulo(Weight(nodes[id]) * pool);
  }

  lemma PayoutBooks(nodes: Nodes, paid: map<NodeId, int>, pool: uint64, top: NodeId, height: uint64)
    requires Tallies(nodes, paid) && Payable(nodes) && Chosen(nodes, pool, top)
    ensures Tallies(NodesPaid(nodes, pool, top, height), PaidInAll(nodes, paid, pool, top))
    ensures MapSum(PaidInAll(nodes, paid, pool, top)) == MapSum(paid) + pool
  {
    PayoutTallies(nodes, paid, pool, top, height);
    SharesArePool(nodes, paid, pool, top);
  }

  lemma BaseOfNothing(n: Node, pool: uint64, total: uint64)
    requires total > 0 && !Qualifies(n)
    ensures BaseOf(n, pool, total) == 0
  {
    BaseBelow(0, pool, total);
    assert pool * 0 == 0;
    Cancel(total, Base(0, pool, total), 0);
  }

  /** What `CalculateExpectedReward` promises a node. */
  ghost function Expected(nodes: Nodes, pool: uint64, id: NodeId): nat
    requires |nodes| < MAX_NODES
  {
    TotalWeightFits(nodes);
    if id !in nodes || pool == 0 || !Qualifies(nodes[id]) then 0 else BaseOf(nodes[id], pool, TotalWeight(nodes))
  }

  /** The estimate is a lower bound on the share, and exact for every node but the top one. */
  lemma ExpectedIsLowerBound(nodes: Nodes, pool: uint64, top: NodeId, id: NodeId)
    requires |nodes| < MAX_NODES && Payable(nodes) && id in nodes
    ensures Expected(nodes, pool, id) <= Share(nodes, pool, top, id)
    ensures id != top && pool > 0 ==> Expected(nodes, pool, id) == Share(nodes, pool, top, id)
  {
    BasesFitPool(Weights(nodes), pool);
    if !Qualifies(nodes[id]) {
      BaseOfNothing(nodes[id], pool, TotalWeight(nodes));
    }
  }

  // ----- the passes over the nodes -----

  method CollectQualified(nodes: Nodes, order: seq<NodeId>) returns (ids: seq<NodeId>)
    requires Enumerates(order, nodes)
    ensures Lists(ids, nodes)
  {
    ids := [];
    for i := 0 to |order|
      invariant Distinct(ids)
      invariant forall id :: id in ids <==> id in order[..i] && id in nodes && Qualifies(nodes[id])
    {
      assert order[..i + 1] == order[..i] + [order[i]];
      assert order[i] in order && order[i] !in order[..i];
      if Qualifies(nodes[order[i]]) {
        ids := ids + [order[i]];
      }
    }
    assert order[..|order|] == order;
  }

  method SumWeights(nodes: Nodes, ids: seq<NodeId>) returns (total: uint64)
    requires Lists(ids, nodes) && |nodes| < MAX_NODES
    ensures total == TotalWeight(nodes)
  {
    var sum: int := 0;
    ghost var weights := Weights(nodes);
    ListSum(weights, ids, nodes);
    for i := 0 to |ids|
      invariant forall id :: id in ids[..i] ==> id in weights
      invariant sum == SumAlong(weights, ids[..i])
    {
      assert ids[..i + 1][..i] == ids[..i] && ids[i] in ids;
      sum := sum + nodes[ids[i]].score;
    }
    assert ids[..|ids|] == ids;
    TotalWeightFits(nodes);
    total := sum;
  }

  /** The nodes when the listed ones have their base share. */
  function BasesPaid(nodes: Nodes, ids: seq<NodeId>, pool: uint64, total: uint64, height: uint64): Nodes
    requires total > 0
  {
    map id | id in nodes ::
      if id in ids then PayOne(nodes[id], BaseOf(nodes[id], pool, total), height) else nodes[id]
  }

  function AddressesOf(nodes: Nodes, ids: seq<NodeId>): seq<Address> {
    seq(|ids|, i requires 0 <= i < |ids| => if ids[i] in nodes then nodes[ids[i]].address else "")
  }

  function BaseList(nodes: Nodes, ids: seq<NodeId>, pool: uint64, total: uint64): seq<uint64>
    requires total > 0
  {
    seq(|ids|, i requires 0 <= i < |ids| => if ids[i] in nodes then BaseOf(nodes[ids[i]], pool, total) else 0)
  }

  /** The first pass: every listed node its base share. */
  method PayBases(nodes: Nodes, ids: seq<NodeId>, pool: uint64, total: uint64, height: uint64)
      returns (after: Nodes, rewards: map<Address, uint64>, given: nat)
    requires Lists(ids, nodes) && total > 0
    ensures after == BasesPaid(nodes, ids, pool, total, height)
    ensures rewards == ByAddress(AddressesOf(nodes, ids), BaseList(nodes, ids, pool, total))
    ensures given == Total(BaseList(nodes, ids, pool, total))
  {
    after, rewards, given := nodes, map[], 0;
    ghost var addresses, bases := AddressesOf(nodes, ids), BaseList(nodes, ids, pool, total);
    for i := 0 to |ids|
      invariant after == BasesPaid(nodes, ids[..i], pool, total, height)
      invariant rewards == ByAddress(addresses[..i], bases[..i])
      invariant given == Total(bases[..i])
    {
      BasesPaidStep(nodes, ids, i, pool, total, height);
      ByAddressStep(addresses, bases, i);
      TotalStep(bases, i);
      var node := after[ids[i]];
      var reward := BaseOf(node, pool, total);
      assert reward == bases[i] && node.address == addresses[i];
      rewards := rewards[node.address := reward];
      given := given + reward;
      after := after[ids[i] := PayOne(node, reward, height)];
    }
    assert addresses[..|ids|] == addresses && bases[..|ids|] == bases && ids[..|ids|] == ids;
  }

  lemma BasesPaidStep(nodes: Nodes, ids: seq<NodeId>, i: nat, pool: uint64, total: uint64, height: uint64)
    requires Lists(ids, nodes) && total > 0 && i < |ids|
    ensures ids[i] in nodes && BasesPaid(nodes, ids[..i], pool, total, height)[ids[i]] == nodes[ids[i]]
    ensures BasesPaid(nodes, ids[..i + 1], pool, total, height)
         == BasesPaid(nodes, ids[..i], pool, total, height)[
              ids[i] := PayOne(nodes[ids[i]], BaseOf(nodes[ids[i]], pool, total), height)]
  {
    assert ids[i] in ids && ids[..i + 1] == ids[..i] + [ids[i]] && ids[i] !in ids[..i];
  }

  lemma ByAddressStep(addresses: seq<Address>, amounts: seq<uint64>, i: nat)
    requires |addresses| == |amounts| && i < |addresses|
    ensures ByAddress(addresses[..i + 1], amounts[..i + 1])
         == ByAddress(addresses[..i], amounts[..i])[addresses[i] := amounts[i]]
  {
    assert addresses[..i + 1][..i] == addresses[..i] && amounts[..i + 1][..i] == amounts[..i];
  }

  lemma TotalStep(amounts: seq<uint64>, i: nat)
    requires i < |amounts|
    ensures Total(amounts[..i + 1]) == Total(amounts[..i]) + amounts[i]
  {
    assert amounts[..i + 1][..i] == amounts[..i];
  }

  method FindTop(nodes: Nodes, ids: seq<NodeId>) returns (top: NodeId)
    requires Lists(ids, nodes) && |ids| > 0
    ensures IsTop(nodes, top)
  {
    top := ids[0];
    var topWeight: uint64 := 0;
    for i := 0 to |ids|
      invariant topWeight == 0 <==> i == 0
      invariant i > 0 ==> top in ids && topWeight == nodes[top].score
      invariant forall j :: 0 <= j < i ==> nodes[ids[j]].score <= topWeight
    {
      assert ids[i] in ids && Qualifies(nodes[ids[i]]);
      var weight := nodes[ids[i]].score;
      if weight > topWeight {
        topWeight := weight;
        top := ids[i];
      }
    }
  }

  /** The list adds up to what the maps say. */
  lemma GivenIsBases(nodes: Nodes, ids: seq<NodeId>, pool: uint64)
    requires Lists(ids, nodes) && Payable(nodes)
    ensures Total(BaseList(nodes, ids, pool, TotalWeight(nodes))) == pool - Remainder(Weights(nodes), pool)
  {
    var total := TotalWeight(nodes);
    var bases := Bases(Weights(nodes), pool, total);
    forall id | id in nodes && !Qualifies(nodes[id]) ensures bases[id] == 0 {
      BaseOfNothing(nodes[id], pool, total);
    }
    ListSum(bases, ids, nodes);
    BaseListAlong(nodes, ids, |ids|, pool);
    assert ids[..|ids|] == ids && BaseList(nodes, ids, pool, total)[..|ids|] == BaseList(nodes, ids, pool, total);
  }

  lemma {:induction false} BaseListAlong(nodes: Nodes, ids: seq<NodeId>, n: nat, pool: uint64)
    requires Lists(ids, nodes) && Payable(nodes) && n <= |ids|
    ensures forall id :: id in ids[..n] ==> id in Weights(nodes)
    ensures Total(BaseList(nodes, ids, pool, TotalWeight(nodes))[..n])
         == SumAlong(Bases(Weights(nodes), pool, TotalWeight(nodes)), ids[..n])
  {
    if n > 0 {
      BaseListAlong(nodes, ids, n - 1, pool);
      TotalStep(BaseList(nodes, ids, pool, TotalWeight(nodes)), n - 1);
      assert ids[..n][..n - 1] == ids[..n - 1] && ids[n - 1] in ids;
    }
  }

  lemma PayTwice(n: Node, a: uint64, b: uint64, height: uint64)
    requires a + b < TWO64
    ensures PayOne(PayOne(n, a, height), b, height) == PayOne(n, a + b, height)
  {
  }

  /** Base pass and remainder together are the distribution. */
  lemma PassesMakeShares(nodes: Nodes, ids: seq<NodeId>, pool: uint64, top: NodeId, height: uint64)
    requires Lists(ids, nodes) && Payable(nodes) && Chosen(nodes, pool, top)
    ensures
      var after := BasesPaid(nodes, ids, pool, TotalWeight(nodes), height);
      var rem := Remainder(Weights(nodes), pool);
      && 0 <= rem <= pool
      && NodesPaid(nodes, pool, top, height)
         == if rem == 0 then after else after[top := PayOne(after[top], rem, height)]
  {
    BasesFitPool(Weights(nodes), pool);
    var total := TotalWeight(nodes);
    var rem := Remainder(Weights(nodes), pool);
    assert Weights(nodes)[top] == Weight(nodes[top]);
    PayTwice(nodes[top], BaseOf(nodes[top], pool, total), rem, height);
  }

  /** The rewards map: base shares in list order under their addresses, the remainder on top of the top node's entry. */
  ghost function RewardsMap(nodes: Nodes, ids: seq<NodeId>, pool: uint64, top: NodeId): map<Address, uint64>
    requires Lists(ids, nodes) && Payable(nodes) && top in ids
  {
    RemainderFits(nodes, ids, pool, top);
    ToppedUp(AddressesOf(nodes, ids), BaseList(nodes, ids, pool, TotalWeight(nodes)), nodes[top].address,
             Remainder(Weights(nodes), pool))
  }

  /** What later nodes with the same address overwrite. */
  ghost function Overwritten(nodes: Nodes, ids: seq<NodeId>, pool: uint64): nat
    requires Payable(nodes)
  {
    Lost(AddressesOf(nodes, ids), BaseList(nodes, ids, pool, TotalWeight(nodes)))
  }

  lemma RemainderFits(nodes: Nodes, ids: seq<NodeId>, pool: uint64, top: NodeId)
    requires Lists(ids, nodes) && Payable(nodes) && top in ids
    ensures Remainder(Weights(nodes), pool) >= 0 && nodes[top].address in AddressesOf(nodes, ids)
    ensures Total(BaseList(nodes, ids, pool, TotalWeight(nodes))) + Remainder(Weights(nodes), pool) == pool
  {
    var i :| 0 <= i < |ids| && ids[i] == top;
    assert AddressesOf(nodes, ids)[i] == nodes[top].address;
    GivenIsBases(nodes, ids, pool);
    BasesFitPool(Weights(nodes), pool);
  }

  /** The map holds the pool, less what was overwritten. */
  lemma RewardsMapHolds(nodes: Nodes, ids: seq<NodeId>, pool: uint64, top: NodeId)
    requires Lists(ids, nodes) && Payable(nodes) && top in ids
    ensures MapSum(RewardsMap(nodes, ids, pool, top)) == pool - Overwritten(nodes, ids, pool)
  {
    RemainderFits(nodes, ids, pool, top);
    ToppedUpHolds(AddressesOf(nodes, ids), BaseList(nodes, ids, pool, TotalWeight(nodes)), nodes[top].address,
                  Remainder(Weights(nodes), pool));
  }

  /** The second pass, on the rewards map. */
  method TopUpRewards(ghost nodes: Nodes, ghost ids: seq<NodeId>, ghost pool: uint64, ghost top: NodeId,
                      address: Address, given: map<Address, uint64>, remainder: uint64)
      returns (rewards: map<Address, uint64>)
    requires Lists(ids, nodes) && Payable(nodes) && top in ids && nodes[top].address == address
    requires remainder == Remainder(Weights(nodes), pool) && remainder > 0
    requires given == ByAddress(AddressesOf(nodes, ids), BaseList(nodes, ids, pool, TotalWeight(nodes)))
    ensures rewards == RewardsMap(nodes, ids, pool, top)
  {
    RemainderFits(nodes, ids, pool, top);
    EntryFits(AddressesOf(nodes, ids), BaseList(nodes, ids, pool, TotalWeight(nodes)), address);
    rewards := given[address := given[address] + remainder];
  }

  /** Both passes over the listed nodes. */
  method PayBoth(nodes: Nodes, ids: seq<NodeId>, pool: uint64, total: uint64, height: uint64)
      returns (after: Nodes, rewards: map<Address, uint64>, top: NodeId)
    requires Lists(ids, nodes) && |ids| > 0 && Payable(nodes) && total == TotalWeight(nodes)
    ensures Chosen(nodes, pool, top) && top in ids
    ensures after == NodesPaid(nodes, pool, top, height)
    ensures rewards == RewardsMap(nodes, ids, pool, top)
  {
    var given;
    after, rewards, given := PayBases(nodes, ids, pool, total, height);
    GivenIsBases(nodes, ids, pool);
    BasesFitPool(Weights(nodes), pool);
    var remainder := pool - given;
    assert ids[0] in ids;
    if remainder > 0 {
      top := FindTop(nodes, ids);
      PassesMakeShares(nodes, ids, pool, top, height);
      rewards := TopUpRewards(nodes, ids, pool, top, after[top].address, rewards, remainder);
      after := after[top := PayOne(after[top], remainder, height)];
    } else {
      top := ids[0];
      PassesMakeShares(nodes, ids, pool, top, height);
    }
  }

  /** What a distribution does to nodes and tallies: nothing without a pool or a qualified node, else the whole pool. */
  ghost predicate Distribution(n0: Nodes, p0: map<NodeId, int>, pool: uint64, ids: seq<NodeId>, top: NodeId,
                               height: uint64, n1: Nodes, p1: map<NodeId, int>, rewards: map<Address, uint64>)
    requires n0.Keys == p0.Keys
  {
    && Lists(ids, n0)
    && if pool == 0 || ids == [] then n1 == n0 && p1 == p0 && rewards == map[]
       else
         && Payable(n0) && top in ids && Chosen(n0, pool, top)
         && n1 == NodesPaid(n0, pool, top, height)
         && p1 == PaidInAll(n0, p0, pool, top)
         && rewards == RewardsMap(n0, ids, pool, top)
  }

  /** A distribution on the maps: collect, weigh, pay. */
  method Settle(nodes: Nodes, ghost paid: map<NodeId, int>, order: seq<NodeId>, pool: uint64, height: uint64)
      returns (after: Nodes, ghost paidAfter: map<NodeId, int>, rewards: map<Address, uint64>, ids: seq<NodeId>,
               ghost top: NodeId)
    requires Tallies(nodes, paid) && Enumerates(order, nodes) && |nodes| < MAX_NODES
    ensures Distribution(nodes, paid, pool, ids, top, height, after, paidAfter, rewards)
    ensures Tallies(after, paidAfter)
    ensures MapSum(paidAfter) == MapSum(paid) + (if ids == [] then 0 else pool)
  {
    after, paidAfter, rewards, top := nodes, paid, map[], "";
    ids := CollectQualified(nodes, order);
    if pool == 0 || |ids| == 0 {
      return;
    }
    var total := SumWeights(nodes, ids);
    TotalWeightFits(nodes);
    assert ids[0] in ids;
    var highest;
    after, rewards, highest := PayBoth(nodes, ids, pool, total, height);
    top := highest;
    paidAfter := PaidInAll(nodes, paid, pool, top);
    PayoutBooks(nodes, paid, pool, top, height);
  }

  // ----- what a distribution promises -----

  /** No two qualified nodes share an address, unless both base shares are 0. */
  ghost predicate NoSharedAddress(nodes: Nodes, pool: uint64)
    requires Payable(nodes)
  {
    forall x, y :: ShareAddress(nodes, x, y) ==> BaseOf(nodes[x], pool, TotalWeight(nodes)) == 0
  }

  ghost predicate ShareAddress(nodes: Nodes, x: NodeId, y: NodeId) {
    && x in nodes && y in nodes && x != y
    && Qualifies(nodes[x]) && Qualifies(nodes[y]) && nodes[x].address == nodes[y].address
  }

  /** In whatever order the nodes are visited, the rewards map pays out the pool. */
  ghost predicate AlwaysPaysPool(nodes: Nodes, pool: uint64)
    requires Payable(nodes)
  {
    forall ids, top :: Lists(ids, nodes) && top in ids && Chosen(nodes, pool, top) ==>
      MapSum(RewardsMap(nodes, ids, pool, top)) == pool
  }

  lemma NothingOverwritten(nodes: Nodes, ids: seq<NodeId>, pool: uint64)
    requires Lists(ids, nodes) && Payable(nodes) && NoSharedAddress(nodes, pool)
    ensures Overwritten(nodes, ids, pool) == 0
  {
    var addresses, bases := AddressesOf(nodes, ids), BaseList(nodes, ids, pool, TotalWeight(nodes));
    forall i, j | 0 <= i < j < |addresses| && addresses[i] == addresses[j] ensures bases[i] == 0 {
      assert ids[i] in ids && ids[j] in ids;
      assert ShareAddress(nodes, ids[i], ids[j]);
    }
    LostNothingIff(addresses, bases);
  }

  lemma {:induction false} ListOf(ids: set<NodeId>) returns (list: seq<NodeId>)
    ensures Distinct(list) && forall id :: id in list <==> id in ids
    decreases |ids|
  {
    list := [];
    if ids != {} {
      var id :| id in ids;
      var rest := ListOf(ids - {id});
      list := [id] + rest;
    }
  }

  /** Some order visits x first. */
  lemma FirstListing(nodes: Nodes, x: NodeId) returns (ids: seq<NodeId>)
    requires x in nodes && Qualifies(nodes[x])
    ensures Lists(ids, nodes) && |ids| > 0 && ids[0] == x
  {
    var others := ListOf(set id | id in nodes && Qualifies(nodes[id]) && id != x);
    ids := [x] + others;
    assert forall j :: 0 <= j < |others| ==> others[j] in others;
  }

  /** In it the base share of x is lost to a later y. */
  lemma FirstIsOverwritten(nodes: Nodes, pool: uint64, x: NodeId, y: NodeId, ids: seq<NodeId>)
    requires Payable(nodes) && ShareAddress(nodes, x, y) && BaseOf(nodes[x], pool, TotalWeight(nodes)) > 0
    requires Lists(ids, nodes) && |ids| > 0 && ids[0] == x
    ensures Overwritten(nodes, ids, pool) > 0
  {
    assert y in ids;
    var j :| 0 <= j < |ids| && ids[j] == y;
    ReusedIsLost(AddressesOf(nodes, ids), BaseList(nodes, ids, pool, TotalWeight(nodes)), 0, j);
  }

  lemma {:induction false} SomeTop(nodes: Nodes, ids: seq<NodeId>, n: nat) returns (top: NodeId)
    requires Lists(ids, nodes) && 0 < n <= |ids|
    ensures top in ids && forall j :: 0 <= j < n ==> nodes[ids[j]].score <= nodes[top].score
    ensures n == |ids| ==> IsTop(nodes, top)
    decreases n
  {
    top := ids[n - 1];
    if n > 1 {
      var before := SomeTop(nodes, ids, n - 1);
      if nodes[before].score > nodes[top].score {
        top := before;
      }
    }
  }

  /** The rewards map pays out the pool in every order exactly when no two qualified nodes with base shares share an address. */
  lemma PaysPoolIff(nodes: Nodes, pool: uint64)
    requires Payable(nodes)
    ensures AlwaysPaysPool(nodes, pool) <==> NoSharedAddress(nodes, pool)
  {
    if NoSharedAddress(nodes, pool) {
      forall ids, top | Lists(ids, nodes) && top in ids && Chosen(nodes, pool, top)
        ensures MapSum(RewardsMap(nodes, ids, pool, top)) == pool
      {
        NothingOverwritten(nodes, ids, pool);
        RewardsMapHolds(nodes, ids, pool, top);
      }
    } else {
      var x, y :| ShareAddress(nodes, x, y) && BaseOf(nodes[x], pool, TotalWeight(nodes)) != 0;
      var ids := FirstListing(nodes, x);
      FirstIsOverwritten(nodes, pool, x, y, ids);
      var top := SomeTop(nodes, ids, |ids|);
      RewardsMapHolds(nodes, ids, pool, top);
    }
  }

  /** Two active nodes of the same score. */
  function TwoNodes(address: Address): Nodes {
    map["a" := Node(address, 60, "active", 0, 0), "b" := Node(address, 60, "active", 0, 0)]
  }

  lemma TwoNodesWeigh(address: Address)
    ensures TotalWeight(TwoNodes(address)) == 120
  {
    var m := Weights(TwoNodes(address));
    SplitOff(m, "a");
    SplitOff(m - {"a"}, "b");
    assert m - {"a"} - {"b"} == map[];
  }

  lemma {:induction false} DistinctLength(list: seq<NodeId>, ids: set<NodeId>)
    requires Distinct(list) && forall id :: id in list <==> id in ids
    ensures |list| == |ids|
  {
    if list != [] {
      var n := |list| - 1;
      forall id ensures id in list[..n] <==> id in ids - {list[n]} {
        assert id in list <==> id in list[..n] || id == list[n];
      }
      DistinctLength(list[..n], ids - {list[n]});
    }
  }

  lemma TwoListings(address: Address, ids: seq<NodeId>)
    requires Lists(ids, TwoNodes(address))
    ensures ids == ["a", "b"] || ids == ["b", "a"]
  {
    assert "a" in ids && "b" in ids;
    forall i | 0 <= i < |ids| ensures ids[i] == "a" || ids[i] == "b" {
      assert ids[i] in ids;
    }
    DistinctLength(ids, {"a", "b"});
  }

  lemma TwoNodesBase(address: Address)
    ensures BaseOf(Node(address, 60, "active", 0, 0), 100, 120) == 50
  {
  }

  /** Two nodes with one address and a pool of 100: in either order the map of a distribution pays out 50. */
  lemma SharedAddressLoses(address: Address, paid: map<NodeId, int>, ids: seq<NodeId>, top: NodeId, height: uint64,
                           after: Nodes, paidAfter: map<NodeId, int>, rewards: map<Address, uint64>)
    requires paid.Keys == TwoNodes(address).Keys
    requires Distribution(TwoNodes(address), paid, 100, ids, top, height, after, paidAfter, rewards)
    ensures MapSum(rewards) == 50
  {
    TwoListings(address, ids);
    TwoNodesWeigh(address);
    PairOverwritten(address, ids);
    RewardsMapHolds(TwoNodes(address), ids, 100, top);
  }

  lemma PairOverwritten(address: Address, ids: seq<NodeId>)
    requires Payable(TwoNodes(address)) && (ids == ["a", "b"] || ids == ["b", "a"])
    ensures Overwritten(TwoNodes(address), ids, 100) == 50
  {
    var nodes := TwoNodes(address);
    TwoNodesWeigh(address);
    TwoNodesBase(address);
    assert AddressesOf(nodes, ids) == [address, address];
    assert BaseList(nodes, ids, 100, 120) == [50, 50];
    LostPair(address, 50, 50);
  }

  lemma CountIsListLength(nodes: Nodes, ids: seq<NodeId>)
    requires Lists(ids, nodes)
    ensures Count(Weights(nodes)) == |ids|
  {
    var ones := map id | id in Weights(nodes) :: if Weights(nodes)[id] > 0 then 1 else 0;
    ListSum(ones, ids, nodes);
    OnesAlong(ones, ids);
  }

  lemma {:induction false} OnesAlong(ones: map<NodeId, int>, ids: seq<NodeId>)
    requires forall id :: id in ids ==> id in ones && ones[id] == 1
    ensures SumAlong(ones, ids) == |ids|
  {
    if ids != [] {
      OnesAlong(ones, ids[..|ids| - 1]);
    }
  }

  ghost predicate NoProductWraps(nodes: Nodes, ids: seq<NodeId>, pool: uint64) {
    forall id :: id in ids && id in nodes ==> nodes[id].score * pool < TWO64
  }

  /** The remainder is below the number of qualified nodes exactly when no product of a score and the pool wrapped. */
  lemma RemainderBelowNodes(nodes: Nodes, ids: seq<NodeId>, pool: uint64)
    requires Payable(nodes) && Lists(ids, nodes) && 0 < |ids|
    ensures NoProductWraps(nodes, ids, pool) ==> Remainder(Weights(nodes), pool) < |ids|
    ensures |ids| <= 0x1000_0000 && Remainder(Weights(nodes), pool) < |ids| ==> NoProductWraps(nodes, ids, pool)
  {
    CountIsListLength(nodes, ids);
    RemainderBelowCount(Weights(nodes), pool);
    var weights := Weights(nodes);
    forall id | id in nodes && !Qualifies(nodes[id]) ensures weights[id] * pool < TWO64 {
      assert 0 * pool == 0;
    }
    if forall id :: id in ids ==> nodes[id].score * pool < TWO64 {
      forall id | id in weights ensures weights[id] * pool < TWO64 {
        assert Qualifies(nodes[id]) ==> id in ids;
      }
    } else {
      var id :| id in ids && nodes[id].score * pool >= TWO64;
      assert weights[id] == nodes[id].score;
    }
  }

  /** One node of score 60 and a pool of 2^63: the product wraps to 0 and the remainder is the whole pool. */
  lemma WrappedProductLeavesAll(address: Address)
    ensures
      var nodes := map["a" := Node(address, 60, "active", 0, 0)];
      && Payable(nodes) && Lists(["a"], nodes)
      && Remainder(Weights(nodes), TWO63) == TWO63 > |["a"]|
  {
    var nodes := map["a" := Node(address, 60, "active", 0, 0)];
    assert Weights(nodes) == map["a" := 60];
    SumOfOne("a", 60);
    assert Base(60, TWO63, 60) == 0 by {
      WrapIsModulo(60 * TWO63);
      assert 60 * TWO63 == 30 * TWO64;
    }
    assert Bases(Weights(nodes), TWO63, 60) == map["a" := 0];
    SumOfOne("a", 0);
    assert "a" in ["a"];
  }

  lemma SumOfOne(k: NodeId, v: int)
    ensures MapSum(map[k := v]) == v
  {
    SplitOff(map[k := v], k);
    assert map[k := v] - {k} == map[];
  }

  ghost function TotalRewards(nodes: Nodes): map<NodeId, int> {
    map id | id in nodes :: nodes[id].totalRewards
  }

  /** What is left on uint64 of an exact amount. */
  predicate LeftOf(seen: int, exact: int) {
    exact >= 0 && seen == Wrap(exact)
  }

  /** Both leave the same. */
  predicate Congruent(a: int, b: int) {
    a >= 0 && b >= 0 && Wrap(a) == Wrap(b)
  }

  ghost predicate WrappedEntries(paid: map<NodeId, int>, seen: map<NodeId, int>) {
    paid.Keys == seen.Keys && forall id :: id in paid ==> LeftOf(seen[id], paid[id])
  }

  lemma CongruentStep(seen: int, exact: int, a: int, b: int)
    requires LeftOf(seen, exact) && Congruent(a, b)
    ensures Congruent(seen + a, exact + b)
  {
    WrapCongruent(exact, a, b);
  }

  lemma {:induction false} TalliesCongruent(paid: map<NodeId, int>, seen: map<NodeId, int>)
    requires WrappedEntries(paid, seen)
    ensures Congruent(MapSum(seen), MapSum(paid))
    decreases |paid|
  {
    if paid == map[] {
      assert seen == map[];
    } else {
      var id :| id in paid;
      RestWrapped(paid, seen, id);
      TalliesCongruent(paid - {id}, seen - {id});
      SplitOff(paid, id);
      SplitOff(seen, id);
      CongruentStep(seen[id], paid[id], MapSum(seen - {id}), MapSum(paid - {id}));
    }
  }

  lemma RestWrapped(paid: map<NodeId, int>, seen: map<NodeId, int>, id: NodeId)
    requires WrappedEntries(paid, seen) && id in paid
    ensures WrappedEntries(paid - {id}, seen - {id}) && LeftOf(seen[id], paid[id])
    ensures |paid - {id}| < |paid|
  {
    assert (paid - {id}).Keys == paid.Keys - {id};
  }

  /** In every run the nodes' totals add up to TotalDistributed, exactly as long as their sum fits into uint64. */
  lemma TotalsAgreeIff(nodes: Nodes, paid: map<NodeId, int>, totalDistributed: uint64)
    requires Tallies(nodes, paid) && MapSum(paid) >= 0 && totalDistributed == Wrap(MapSum(paid))
    ensures MapSum(TotalRewards(nodes)) == totalDistributed <==> MapSum(TotalRewards(nodes)) < TWO64
  {
    TalliesCongruent(paid, TotalRewards(nodes));
  }

  /** Two nodes paid 2^63 each: their totals add up to 2^64, and TotalDistributed has wrapped to 0. */
  lemma TotalsDisagree(one: Node, two: Node)
    requires one.totalRewards == TWO63 && two.totalRewards == TWO63
    ensures
      var nodes, paid := map["a" := one, "b" := two], map["a" := TWO63, "b" := TWO63];
      && Tallies(nodes, paid) && MapSum(paid) == TWO64 && Wrap(MapSum(paid)) == 0
      && MapSum(TotalRewards(nodes)) == TWO64
  {
    var nodes, paid := map["a" := one, "b" := two], map["a" := TWO63, "b" := TWO63];
    assert TotalRewards(nodes) == paid;
    SplitOff(paid, "a");
    assert paid - {"a"} == map["b" := TWO63];
    SumOfOne("b", TWO63);
  }

  // ----- the contract -----

  /** The latest distributions, up to a hundred. */
  function Recorded(history: seq<Event>, event: Event): (r: seq<Event>)
    ensures |r| == if |history| < 100 then |history| + 1 else 100
    ensures r == (history + [event])[|history| + 1 - |r|..]
  {
    var all := history + [event];
    if |all| > MAX_HISTORY then all[|all| - MAX_HISTORY..] else all
  }

  /** Append, then trim. */
  method Record(history: seq<Event>, event: Event) returns (r: seq<Event>)
    ensures r == Recorded(history, event)
  {
    r := history + [event];
    if |r| > MAX_HISTORY {
      r := r[|r| - MAX_HISTORY..];
    }
  }

  class IntegrityRewardContract {
    var rewardPool: uint64
    var distributionInterval: uint64
    var lastDistributionHeight: uint64
    var nextDistributionHeight: uint64
    var totalDistributed: uint64
    var nodes: Nodes
    var history: seq<Event>
    /** What each node was paid in all, without wrap-around. */
    ghost var paid: map<NodeId, int>

    /** Kept by every method, so it holds in every run. */
    ghost predicate Valid()
      reads this
    {
      && Tallies(nodes, paid)
      && MapSum(paid) >= 0
      && totalDistributed == Wrap(MapSum(paid))
      && nextDistributionHeight == Add(lastDistributionHeight, distributionInterval)
      && |history| <= MAX_HISTORY
    }

    constructor ()
      ensures Valid() && rewardPool == 0 && nodes == map[] && history == []
      ensures distributionInterval == nextDistributionHeight == 5082 && lastDistributionHeight == totalDistributed == 0
    {
      rewardPool, distributionInterval := 0, DEFAULT_INTERVAL;
      lastDistributionHeight, nextDistributionHeight, totalDistributed := 0, DEFAULT_INTERVAL, 0;
      nodes, history, paid := map[], [], map[];
    }

    /** The share is a constant of the source; the addition saturates. */
    method AddToRewardPool(blockReward: uint64, sharePercent: uint8)
      requires Valid()
      modifies `rewardPool
      ensures Valid()
      ensures rewardPool == if old(rewardPool) + Mul(blockReward, sharePercent) / 100 < TWO64
                            then old(rewardPool) + Mul(blockReward, sharePercent) / 100 else MAX_UINT64
    {
      var integrityShare := Mul(blockReward, sharePercent) / 100;
      if rewardPool > MAX_UINT64 - integrityShare {
        rewardPool := MAX_UINT64;
      } else {
        rewardPool := rewardPool + integrityShare;
      }
    }

    method RegisterNode(id: NodeId, address: Address) returns (ok: bool)
      requires Valid()
      modifies `nodes, `paid
      ensures Valid()
      ensures ok <==> id !in old(nodes) && address != ""
      ensures nodes == if ok then old(nodes)[id := Node(address, 100, "active", 0, 0)] else old(nodes)
      ensures paid == if ok then old(paid)[id := 0] else old(paid)
    {
      if id in nodes || address == "" {
        return false;
      }
      SumUpdate(paid, id, 0);
      nodes := nodes[id := Node(address, 100, "active", 0, 0)];
      paid := paid[id := 0];
      return true;
    }

    method UpdateNodeScore(id: NodeId, score: uint8, status: string) returns (ok: bool)
      requires Valid()
      modifies `nodes
      ensures Valid()
      ensures ok <==> id in old(nodes)
      ensures !ok ==> nodes == old(nodes)
      ensures ok ==> nodes == old(nodes)[id := old(nodes)[id].(
        score := score, status := if status != "" then status else old(nodes)[id].status)]
    {
      if id !in nodes {
        return false;
      }
      var node := nodes[id].(score := score);
      if status != "" {
        node := node.(status := status);
      }
      nodes := nodes[id := node];
      return true;
    }

    method SetDistributionInterval(interval: uint64) returns (ok: bool)
      requires Valid()
      modifies `distributionInterval, `nextDistributionHeight
      ensures Valid()
      ensures ok <==> interval != 0
      ensures distributionInterval == if ok then interval else old(distributionInterval)
    {
      if interval == 0 {
        return false;
      }
      distributionInterval := interval;
      if lastDistributionHeight > 0 {
        nextDistributionHeight := Add(lastDistributionHeight, interval);
      } else {
        nextDistributionHeight := interval;
      }
      return true;
    }

    /** The estimate for one node. */
    method CalculateExpectedReward(id: NodeId, order: seq<NodeId>) returns (reward: uint64)
      requires Enumerates(order, nodes) && |nodes| < MAX_NODES
      ensures reward == Expected(nodes, rewardPool, id)
    {
      if id !in nodes || rewardPool == 0 {
        return 0;
      }
      var node := nodes[id];
      if node.status != "active" || node.score < MIN_QUALIFIED_SCORE {
        return 0;
      }
      var ids := CollectQualified(nodes, order);
      var totalWeight := SumWeights(nodes, ids);
      TotalWeightFits(nodes);
      return Base(node.score, rewardPool, totalWeight);
    }

    /** `DistributeRewards`, for every order in which the runtime may visit the nodes. */
    method DistributeRewards(currentHeight: uint64, order: seq<NodeId>)
        returns (result: Option<map<Address, uint64>>, ghost ids: seq<NodeId>, ghost top: NodeId)
      requires Valid() && Enumerates(order, nodes) && |nodes| < MAX_NODES
      modifies this
      ensures Valid() && distributionInterval == old(distributionInterval)
      ensures currentHeight < old(nextDistributionHeight) ==> result.None? && unchanged(this)
      ensures currentHeight >= old(nextDistributionHeight) ==>
        && result.Some? && lastDistributionHeight == currentHeight
        && rewardPool == (if ids == [] then old(rewardPool) else 0)
        && Distribution(old(nodes), old(paid), old(rewardPool), ids, top, currentHeight, nodes, paid, result.value)
        && history == (if old(rewardPool) == 0 || ids == [] then old(history)
                       else Recorded(old(history), Event(currentHeight, old(rewardPool), |ids|, result.value)))
    {
      ids, top := [], "";
      if currentHeight < nextDistributionHeight {
        return None, [], "";
      }
      var after, rewards, qualified;
      ghost var paidAfter;
      after, paidAfter, rewards, qualified, top := Settle(nodes, paid, order, rewardPool, currentHeight);
      ids := qualified;
      if rewardPool > 0 && |qualified| > 0 {
        Commit(after, paidAfter, Event(currentHeight, rewardPool, |qualified|, rewards));
      }
      Reschedule(currentHeight);
      return Some(rewards), ids, top;
    }

    method Reschedule(currentHeight: uint64)
      requires Valid()
      modifies `lastDistributionHeight, `nextDistributionHeight
      ensures Valid() && lastDistributionHeight == currentHeight
    {
      lastDistributionHeight := currentHeight;
      nextDistributionHeight := Add(currentHeight, distributionInterval);
    }

    /** Book a finished distribution of the whole pool. */
    method Commit(after: Nodes, ghost paidAfter: map<NodeId, int>, event: Event)
      requires Valid() && Tallies(after, paidAfter) && event.totalDistributed == rewardPool
      requires MapSum(paidAfter) == MapSum(paid) + rewardPool
      modifies `nodes, `paid, `totalDistributed, `history, `rewardPool
      ensures Valid() && nodes == after && paid == paidAfter && rewardPool == 0
      ensures history == Recorded(old(history), event)
    {
      SumWraps(MapSum(paid), rewardPool);
      nodes, paid := after, paidAfter;
      totalDistributed := Add(totalDistributed, rewardPool);
      rewardPool := 0;
      history := Record(history, event);
    }
  }
}
