/**
 * The policy store (policies, levels with their targets, and the policy
 * levels that place a level at a tier of a policy) and the escalation
 * resolver that looks a tier up in it.
 */
module Policies {
  import opened Records
  import Tables

  datatype PolicyStore = PolicyStore(
    policies: map<nat, Policy>,
    nextPolicyId: nat,
    levels: map<nat, Level>,
    nextLevelId: nat,
    nextTargetId: nat,
    policyLevels: map<nat, PolicyLevel>,
    nextPolicyLevelId: nat)

  /** Every id in use is below the next id to hand out. */
  ghost predicate KeysBelow<T>(m: map<nat, T>, next: nat) {
    forall k :: k in m ==> k < next
  }

  /** The level and policy level tables only use ids below their counters (what adding a level relies on). */
  ghost predicate LaddersBounded(ps: PolicyStore) {
    KeysBelow(ps.levels, ps.nextLevelId) && KeysBelow(ps.policyLevels, ps.nextPolicyLevelId)
  }

  /** Every row is stored under its own id, below the next id to hand out, and policy levels refer to existing rows. */
  ghost predicate ValidPolicies(ps: PolicyStore) {
    && KeysBelow(ps.policies, ps.nextPolicyId)
    && LaddersBounded(ps)
    && (forall k :: k in ps.policies ==> ps.policies[k].id == k)
    && (forall k :: k in ps.levels ==> ps.levels[k].id == k)
    && (forall k :: k in ps.policyLevels ==>
          && ps.policyLevels[k].id == k
          && ps.policyLevels[k].policyId in ps.policies
          && ps.policyLevels[k].levelId in ps.levels)
  }

  function EmptyPolicies(): (ps: PolicyStore)
    ensures ValidPolicies(ps)
  {
    PolicyStore(map[], 0, map[], 0, 0, map[], 0)
  }

  predicate IsTier(pl: PolicyLevel, policyId: nat, tier: int) {
    pl.policyId == policyId && pl.escalation == tier
  }

  function TierOf(policyId: nat, tier: int): PolicyLevel -> bool {
    (pl: PolicyLevel) => IsTier(pl, policyId, tier)
  }

  /** Some policy level places a level at exactly `tier` of the policy. */
  ghost predicate HasTier(ps: PolicyStore, policyId: nat, tier: int) {
    exists k :: k in ps.policyLevels && IsTier(ps.policyLevels[k], policyId, tier)
  }

  /** The first policy level (in id order) at exactly `tier` of the policy. */
  function FindTier(ps: PolicyStore, policyId: nat, tier: int): (r: Option<nat>)
    requires ValidPolicies(ps)
    ensures r.Some? ==> r.value in ps.policyLevels && IsTier(ps.policyLevels[r.value], policyId, tier)
    ensures r.Some? ==> forall k :: k in ps.policyLevels && k < r.value ==> !IsTier(ps.policyLevels[k], policyId, tier)
    ensures r.None? <==> !HasTier(ps, policyId, tier)
  {
    Tables.FirstKey(ps.policyLevels, TierOf(policyId, tier), 0, ps.nextPolicyLevelId)
  }

  /**
   * The targets to notify at `tier`, or None when the policy has no such
   * tier. The lookup is by exact tier: a missing tier is not skipped.
   */
  function ResolveTier(ps: PolicyStore, policyId: nat, tier: int): (r: Option<seq<Target>>)
    requires ValidPolicies(ps)
    ensures r.None? <==> !HasTier(ps, policyId, tier)
    ensures r.Some? ==>
      exists k :: k in ps.policyLevels && IsTier(ps.policyLevels[k], policyId, tier)
        && r.value == ps.levels[ps.policyLevels[k].levelId].targets
  {
    match FindTier(ps, policyId, tier)
    case None => None
    case Some(k) => Some(ps.levels[ps.policyLevels[k].levelId].targets)
  }

  /** The targets of `tier`, or none when the tier is missing. */
  function TierTargets(ps: PolicyStore, policyId: nat, tier: int): seq<Target>
    requires ValidPolicies(ps)
  {
    match ResolveTier(ps, policyId, tier)
    case None => []
    case Some(ts) => ts
  }

  /** Every tier in (from, to] is present in the policy. */
  ghost predicate DenseTiers(ps: PolicyStore, policyId: nat, from: nat, to: nat) {
    forall t :: from < t <= to ==> HasTier(ps, policyId, t)
  }

  /** The targets of tiers from+1, ..., to, one tier after another. */
  function Climb(ps: PolicyStore, policyId: nat, from: nat, to: nat): seq<Target>
    requires ValidPolicies(ps)
    decreases if from >= to then 0 else to - from
  {
    if from >= to then [] else TierTargets(ps, policyId, from + 1) + Climb(ps, policyId, from + 1, to)
  }

  function PolicyNamed(name: string): Policy -> bool {
    (p: Policy) => p.name == name
  }

  function LevelNamed(name: string): Level -> bool {
    (l: Level) => l.name == name
  }

  /** The policy with this name, if any (the policy name is the key upsertPolicy looks up). */
  function FindPolicy(ps: PolicyStore, name: string): (r: Option<nat>)
    requires KeysBelow(ps.policies, ps.nextPolicyId)
    ensures r.Some? ==> r.value in ps.policies && ps.policies[r.value].name == name
    ensures r.None? <==> forall k :: k in ps.policies ==> ps.policies[k].name != name
  {
    Tables.FirstKey(ps.policies, PolicyNamed(name), 0, ps.nextPolicyId)
  }

  /** The level with this name, if any (the level name is the key of connectOrCreate). */
  function FindLevel(ps: PolicyStore, name: string): (r: Option<nat>)
    requires KeysBelow(ps.levels, ps.nextLevelId)
    ensures r.Some? ==> r.value in ps.levels && ps.levels[r.value].name == name
    ensures r.None? <==> forall k :: k in ps.levels ==> ps.levels[k].name != name
  {
    Tables.FirstKey(ps.levels, LevelNamed(name), 0, ps.nextLevelId)
  }

  /** Fresh target rows, with consecutive ids from `first`, for the given inputs. */
  function NewTargets(first: nat, ts: seq<TargetInput>): seq<Target> {
    seq(|ts|, i requires 0 <= i < |ts| => Target(first + i, ts[i].kind, ts[i].contact))
  }

  /** Policy level `k` places the level named `lv.name` at tier `lv.escalation` of the policy. */
  ghost predicate PlacesLevel(ps: PolicyStore, k: nat, policyId: nat, lv: LevelInput) {
    && k in ps.policyLevels
    && IsTier(ps.policyLevels[k], policyId, lv.escalation)
    && ps.policyLevels[k].levelId in ps.levels
    && ps.levels[ps.policyLevels[k].levelId].name == lv.name
  }

  /**
   * Places the level named `lv.name` at tier `lv.escalation` of the policy:
   * an existing level of that name is reused as it is, otherwise a new level
   * is created with fresh targets.
   */
  function AddLevel(ps: PolicyStore, policyId: nat, lv: LevelInput): (r: PolicyStore)
    requires LaddersBounded(ps)
    ensures LaddersBounded(r)
    ensures r.policies == ps.policies && r.nextPolicyId == ps.nextPolicyId
    ensures forall k :: k in ps.levels ==> k in r.levels && r.levels[k] == ps.levels[k]
    ensures forall k :: k in ps.policyLevels ==> k in r.policyLevels && r.policyLevels[k] == ps.policyLevels[k]
    ensures r.nextPolicyLevelId == ps.nextPolicyLevelId + 1
    ensures forall k :: k in r.policyLevels ==> k in ps.policyLevels || k == ps.nextPolicyLevelId
    ensures ps.nextPolicyLevelId in r.policyLevels
    ensures r.policyLevels[ps.nextPolicyLevelId].policyId == policyId
  {
    var plId := ps.nextPolicyLevelId;
    match FindLevel(ps, lv.name)
    case Some(lid) =>
      ps.(policyLevels := ps.policyLevels[plId := PolicyLevel(plId, policyId, lv.escalation, lid)],
          nextPolicyLevelId := plId + 1)
    case None =>
      var lid := ps.nextLevelId;
      var level := Level(lid, lv.name, NewTargets(ps.nextTargetId, lv.targets));
      ps.(levels := ps.levels[lid := level],
          nextLevelId := lid + 1,
          nextTargetId := ps.nextTargetId + |lv.targets|,
          policyLevels := ps.policyLevels[plId := PolicyLevel(plId, policyId, lv.escalation, lid)],
          nextPolicyLevelId := plId + 1)
  }

  /**
   * Adds the levels of `lvs` in order. The policy then has one new policy
   * level per input, numbered in input order, each at the input's tier and
   * naming the input's level; rows that existed before are left as they were.
   */
  function AddLevels(ps: PolicyStore, policyId: nat, lvs: seq<LevelInput>): (r: PolicyStore)
    requires LaddersBounded(ps)
    ensures LaddersBounded(r)
    ensures r.policies == ps.policies && r.nextPolicyId == ps.nextPolicyId
    ensures forall k :: k in ps.levels ==> k in r.levels && r.levels[k] == ps.levels[k]
    ensures forall k :: k in ps.policyLevels ==> k in r.policyLevels && r.policyLevels[k] == ps.policyLevels[k]
    ensures r.nextPolicyLevelId == ps.nextPolicyLevelId + |lvs|
    ensures forall k :: k in r.policyLevels && k !in ps.policyLevels ==>
      ps.nextPolicyLevelId <= k < r.nextPolicyLevelId && r.policyLevels[k].policyId == policyId
    ensures forall k :: ps.nextPolicyLevelId <= k < r.nextPolicyLevelId ==> k in r.policyLevels
    decreases |lvs|
  {
    if lvs == [] then ps
    else AddLevel(AddLevels(ps, policyId, lvs[..|lvs| - 1]), policyId, lvs[|lvs| - 1])
  }

  /**
   * The new policy level places the input level at its tier: the existing
   * level of that name, left as it was, or else a new level carrying fresh
   * targets for the input's targets.
   */
  lemma AddLevelConnectsOrCreates(ps: PolicyStore, policyId: nat, lv: LevelInput)
    requires LaddersBounded(ps)
    ensures var r := AddLevel(ps, policyId, lv);
      PlacesLevel(r, ps.nextPolicyLevelId, policyId, lv)
    ensures var r := AddLevel(ps, policyId, lv); var lid := r.policyLevels[ps.nextPolicyLevelId].levelId;
      (FindLevel(ps, lv.name).Some? ==> lid == FindLevel(ps, lv.name).value && r.levels[lid] == ps.levels[lid])
    ensures var r := AddLevel(ps, policyId, lv); var lid := r.policyLevels[ps.nextPolicyLevelId].levelId;
      (FindLevel(ps, lv.name).None? ==>
        lid !in ps.levels && r.levels[lid].targets == NewTargets(ps.nextTargetId, lv.targets))
  {
  }

  /** Adding a level keeps every placement that was already there. */
  lemma AddLevelKeepsPlacement(ps: PolicyStore, policyId: nat, lv: LevelInput, k: nat, placed: LevelInput)
    requires LaddersBounded(ps)
    requires PlacesLevel(ps, k, policyId, placed)
    ensures PlacesLevel(AddLevel(ps, policyId, lv), k, policyId, placed)
  {
    var r := AddLevel(ps, policyId, lv);
    assert r.policyLevels[k] == ps.policyLevels[k];
    assert r.levels[ps.policyLevels[k].levelId] == ps.levels[ps.policyLevels[k].levelId];
  }

  /** The i-th input level is placed, by the i-th new policy level, at its tier of the policy. */
  lemma {:induction false} AddLevelsPlaces(ps: PolicyStore, policyId: nat, lvs: seq<LevelInput>, i: nat, k: nat)
    requires LaddersBounded(ps)
    requires i < |lvs| && k == ps.nextPolicyLevelId + i
    ensures PlacesLevel(AddLevels(ps, policyId, lvs), k, policyId, lvs[i])
    decreases |lvs|
  {
    var last := lvs[|lvs| - 1];
    var init := lvs[..|lvs| - 1];
    var prev := AddLevels(ps, policyId, init);
    assert AddLevels(ps, policyId, lvs) == AddLevel(prev, policyId, last);
    if i < |init| {
      AddLevelsPlaces(ps, policyId, init, i, k);
      assert lvs[i] == init[i];
      AddLevelKeepsPlacement(prev, policyId, last, k, init[i]);
    } else {
      AddLevelConnectsOrCreates(prev, policyId, last);
    }
  }

  /** Adding a level to an existing policy keeps the store well formed. */
  lemma AddLevelValid(ps: PolicyStore, policyId: nat, lv: LevelInput)
    requires ValidPolicies(ps) && policyId in ps.policies
    ensures ValidPolicies(AddLevel(ps, policyId, lv))
  {
    var r := AddLevel(ps, policyId, lv);
    AddLevelConnectsOrCreates(ps, policyId, lv);
    var lid := r.policyLevels[ps.nextPolicyLevelId].levelId;
    assert lid in r.levels && (lid in ps.levels || lid == ps.nextLevelId);
    assert forall k :: k in r.levels && k !in ps.levels ==> k == ps.nextLevelId && r.levels[k].id == k;
  }

  /** Adding the levels of `lvs` to an existing policy keeps the store well formed. */
  lemma {:induction false} AddLevelsValid(ps: PolicyStore, policyId: nat, lvs: seq<LevelInput>)
    requires ValidPolicies(ps) && policyId in ps.policies
    ensures ValidPolicies(AddLevels(ps, policyId, lvs))
    decreases |lvs|
  {
    if lvs != [] {
      var init := lvs[..|lvs| - 1];
      AddLevelsValid(ps, policyId, init);
      AddLevelValid(AddLevels(ps, policyId, init), policyId, lvs[|lvs| - 1]);
    }
  }

  /** The policy row upsertPolicy creates for a new name, under the next policy id. */
  function NewPolicy(ps: PolicyStore, name: string): (r: PolicyStore)
    requires ValidPolicies(ps)
    ensures ValidPolicies(r)
    ensures ps.nextPolicyId !in ps.policies && ps.nextPolicyId in r.policies
  {
    var pid := ps.nextPolicyId;
    ps.(policies := ps.policies[pid := Policy(pid, name)], nextPolicyId := pid + 1)
  }

  /** A new policy named `name` together with its ladder of levels `lvs`. */
  function CreateLadder(ps: PolicyStore, name: string, lvs: seq<LevelInput>): (r: PolicyStore)
    requires ValidPolicies(ps)
    ensures ValidPolicies(r)
  {
    AddLevelsValid(NewPolicy(ps, name), ps.nextPolicyId, lvs);
    AddLevels(NewPolicy(ps, name), ps.nextPolicyId, lvs)
  }

  /** Adding the levels of `lvs + [lv]` is adding those of `lvs`, then `lv`. */
  lemma AddLevelsSnoc(ps: PolicyStore, policyId: nat, lvs: seq<LevelInput>, lv: LevelInput)
    requires LaddersBounded(ps)
    ensures AddLevels(ps, policyId, lvs + [lv]) == AddLevel(AddLevels(ps, policyId, lvs), policyId, lv)
  {
    assert (lvs + [lv])[..|lvs|] == lvs;
  }

  /** The new policy is the one row added to the policies, under the next id and with the given name. */
  lemma CreateLadderAddsPolicy(ps: PolicyStore, name: string, lvs: seq<LevelInput>)
    requires ValidPolicies(ps)
    ensures CreateLadder(ps, name, lvs).policies == ps.policies[ps.nextPolicyId := Policy(ps.nextPolicyId, name)]
    ensures ps.nextPolicyId !in ps.policies
  {
  }

  /** The i-th new policy level places the i-th input at its tier of the new policy. */
  lemma CreateLadderPlaces(ps: PolicyStore, name: string, lvs: seq<LevelInput>)
    requires ValidPolicies(ps)
    ensures var r := CreateLadder(ps, name, lvs);
      forall i :: 0 <= i < |lvs| ==> PlacesLevel(r, ps.nextPolicyLevelId + i, ps.nextPolicyId, lvs[i])
  {
    var ps0 := NewPolicy(ps, name);
    var r := AddLevels(ps0, ps.nextPolicyId, lvs);
    assert CreateLadder(ps, name, lvs) == r;
    forall i | 0 <= i < |lvs|
      ensures PlacesLevel(r, ps.nextPolicyLevelId + i, ps.nextPolicyId, lvs[i])
    {
      AddLevelsPlaces(ps0, ps.nextPolicyId, lvs, i, ps.nextPolicyLevelId + i);
    }
  }

  /**
   * The new policy has no policy level but those of its ladder, and the
   * levels that existed before are not changed (a level named like an
   * existing one is reused, not overwritten).
   */
  lemma CreateLadderOnlyNew(ps: PolicyStore, name: string, lvs: seq<LevelInput>)
    requires ValidPolicies(ps)
    ensures var r := CreateLadder(ps, name, lvs);
      forall k :: k in r.policyLevels && r.policyLevels[k].policyId == ps.nextPolicyId ==>
        ps.nextPolicyLevelId <= k < ps.nextPolicyLevelId + |lvs|
    ensures var r := CreateLadder(ps, name, lvs);
      forall k :: k in ps.levels ==> k in r.levels && r.levels[k] == ps.levels[k]
  {
    var ps0 := NewPolicy(ps, name);
    assert forall k :: k in ps0.policyLevels ==> ps0.policyLevels[k].policyId != ps.nextPolicyId;
  }
}
