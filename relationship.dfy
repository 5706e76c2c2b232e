/**
 * Building the new id list of a relationship (for instance the members of a
 * group) from its current items and the references to remove and to add.
 */
module Relationship {
  import opened Wrappers
  import opened Resolver
  import opened Params

  /** The ids a list of references resolved to, or the first failed lookup. */
  datatype Resolution = Resolved(ids: seq<string>) | Unresolved(failure: Lookup)

  /** What `update_resource_relationship` returns (`None` is `NoChange`) or raises. */
  datatype Update = NoChange | NewIds(ids: set<string>) | Failed(failure: Lookup)

  /** The ids of the relationship's current items, the `id` field of each. */
  function CurrentIds(resources: seq<Record>): (ids: set<string>)
    ensures forall r | r in resources :: r.id in ids
    ensures forall x | x in ids :: exists i | 0 <= i < |resources| :: resources[i].id == x
  {
    set r | r in resources :: r.id
  }

  /** The elements of a list, as `set(...)` makes them. */
  function Elements(xs: seq<string>): (s: set<string>)
    ensures forall x :: x in s <==> x in xs
  {
    set x | x in xs
  }

  /**
   * `[find_item_id(item) for item in items]`: every reference resolved in
   * order; the first failed lookup is raised and ends the comprehension.
   */
  function ResolveAll(refs: seq<string>, resolve: string -> Lookup): (r: Resolution)
    ensures r.Resolved? <==> forall k | 0 <= k < |refs| :: resolve(refs[k]).Found?
    ensures r.Resolved? ==> |r.ids| == |refs| && forall k | 0 <= k < |refs| :: resolve(refs[k]) == Found(r.ids[k])
    ensures r.Unresolved? ==> !r.failure.Found?
    ensures r.Unresolved? ==>
              exists k | 0 <= k < |refs| :: resolve(refs[k]) == r.failure && forall j | 0 <= j < k :: resolve(refs[j]).Found?
  {
    if |refs| == 0 then Resolved([])
    else
      match resolve(refs[0])
      case Found(id) =>
        var rest := ResolveAll(refs[1..], resolve);
        if rest.Resolved? then Resolved([id] + rest.ids)
        else
          var k :| 0 <= k < |refs[1..]| && resolve(refs[1..][k]) == rest.failure
                   && forall j | 0 <= j < k :: resolve(refs[1..][j]).Found?;
          assert forall j | 0 <= j < k + 1 :: resolve(refs[j]).Found? by {
            forall j | 0 <= j < k + 1 ensures resolve(refs[j]).Found? {
              if j > 0 { assert refs[j] == refs[1..][j - 1]; }
            }
          }
          assert resolve(refs[k + 1]) == rest.failure;
          Unresolved(rest.failure)
      case _ => Unresolved(resolve(refs[0]))
  }

  /** The references an optional argument contributes: none unless it is given. */
  function RefsOf(arg: Option<RefArg>): (refs: seq<string>)
    ensures Given(arg) ==> refs == ExtractList(arg.value) && |refs| > 0
    ensures !Given(arg) ==> refs == []
  {
    if Given(arg) then ExtractList(arg.value) else []
  }

  /**
   * The relationship after the change: nothing when neither list is given;
   * otherwise the current ids, less those removed, plus those added, with
   * the removals resolved (and failing) before the additions.
   */
  function RelationshipDiff(resources: seq<Record>, resolve: string -> Lookup,
                            add: Option<RefArg>, remove: Option<RefArg>): (update: Update)
    ensures update == NoChange <==> !Given(add) && !Given(remove)
    ensures update.Failed? ==> !update.failure.Found?
  {
    if !Given(add) && !Given(remove) then NoChange
    else
      var removal := ResolveAll(RefsOf(remove), resolve);
      var addition := ResolveAll(RefsOf(add), resolve);
      if removal.Unresolved? then Failed(removal.failure)
      else if addition.Unresolved? then Failed(addition.failure)
      else NewIds((CurrentIds(resources) - Elements(removal.ids)) + Elements(addition.ids))
  }

  /** `update_resource_relationship`. */
  method UpdateResourceRelationship(resources: seq<Record>, resolve: string -> Lookup,
                                    add: Option<RefArg>, remove: Option<RefArg>)
    returns (update: Update)
    ensures update == RelationshipDiff(resources, resolve, add, remove)
  {
    var itemIds := CurrentIds(resources);
    var removeItems: seq<string> := [];
    if Given(remove) {
      var removal := ResolveAll(ExtractList(remove.value), resolve);
      if removal.Unresolved? {
        return Failed(removal.failure);
      }
      removeItems := removal.ids;
      itemIds := itemIds - Elements(removeItems);
    }
    var addItems: seq<string> := [];
    if Given(add) {
      var addition := ResolveAll(ExtractList(add.value), resolve);
      if addition.Unresolved? {
        return Failed(addition.failure);
      }
      addItems := addition.ids;
      itemIds := itemIds + Elements(addItems);
    }
    if |addItems| > 0 || |removeItems| > 0 {
      return NewIds(itemIds);
    }
    return NoChange;
  }

  // ---------------------------------------------------------------------
  // Properties of the diff

  /** Some reference in `refs` resolves to `x`. */
  predicate ResolvesTo(refs: seq<string>, resolve: string -> Lookup, x: string)
  {
    exists k | 0 <= k < |refs| :: resolve(refs[k]) == Found(x)
  }

  lemma ResolvedElements(refs: seq<string>, resolve: string -> Lookup)
    requires ResolveAll(refs, resolve).Resolved?
    ensures forall x :: x in Elements(ResolveAll(refs, resolve).ids) <==> ResolvesTo(refs, resolve, x)
  {
    var ids := ResolveAll(refs, resolve).ids;
    forall x ensures x in Elements(ids) <==> ResolvesTo(refs, resolve, x) {
      if x in ids {
        var k :| 0 <= k < |ids| && ids[k] == x;
        assert resolve(refs[k]) == Found(x);
      }
      if ResolvesTo(refs, resolve, x) {
        var k :| 0 <= k < |refs| && resolve(refs[k]) == Found(x);
        assert ids[k] == x;
      }
    }
  }

  /**
   * When every reference resolves, the new relationship holds an id exactly
   * when it is current and not removed, or when it is added: removal comes
   * first, so an id both removed and added is present.
   */
  lemma DiffMembership(resources: seq<Record>, resolve: string -> Lookup,
                       add: Option<RefArg>, remove: Option<RefArg>, x: string)
    requires Given(add) || Given(remove)
    requires forall k | 0 <= k < |RefsOf(remove)| :: resolve(RefsOf(remove)[k]).Found?
    requires forall k | 0 <= k < |RefsOf(add)| :: resolve(RefsOf(add)[k]).Found?
    ensures RelationshipDiff(resources, resolve, add, remove).NewIds?
    ensures x in RelationshipDiff(resources, resolve, add, remove).ids <==>
              (x in CurrentIds(resources) && !ResolvesTo(RefsOf(remove), resolve, x))
              || ResolvesTo(RefsOf(add), resolve, x)
  {
    ResolvedElements(RefsOf(remove), resolve);
    ResolvedElements(RefsOf(add), resolve);
  }

  /**
   * A single reference that fails to resolve fails the whole update: no new
   * id list is produced, and the failure is one of the references' own. A
   * failed removal is reported even when an addition fails as well.
   */
  lemma FailureAborts(resources: seq<Record>, resolve: string -> Lookup,
                      add: Option<RefArg>, remove: Option<RefArg>, k: nat, fromRemove: bool)
    requires var refs := if fromRemove then RefsOf(remove) else RefsOf(add);
             k < |refs| && !resolve(refs[k]).Found?
    ensures RelationshipDiff(resources, resolve, add, remove).Failed?
    ensures var failure := RelationshipDiff(resources, resolve, add, remove).failure;
            !failure.Found? &&
            ((exists i | 0 <= i < |RefsOf(remove)| :: resolve(RefsOf(remove)[i]) == failure)
             || (exists i | 0 <= i < |RefsOf(add)| :: resolve(RefsOf(add)[i]) == failure))
    ensures fromRemove ==> exists i | 0 <= i < |RefsOf(remove)| ::
              resolve(RefsOf(remove)[i]) == RelationshipDiff(resources, resolve, add, remove).failure
  {
  }

  // ---------------------------------------------------------------------
  // The lookup as the resolver

  /** `lookup_resource_id` bound to a list of candidate records, as callers pass it. */
  function BoundResolver(candidates: seq<Record>, mac: bool, isUuid: string -> bool): (resolve: string -> Lookup)
    ensures forall ref :: resolve(ref) == Resolve(candidates, ref, SelectMode(mac, isUuid(ref)))
    ensures forall ref | resolve(ref).Found? :: exists i | 0 <= i < |candidates| :: candidates[i].id == resolve(ref).id
    ensures forall ref | !resolve(ref).Found? :: resolve(ref).reference == ref
  {
    ref => Resolve(candidates, ref, SelectMode(mac, isUuid(ref)))
  }

  /**
   * With the lookup as the resolver, every id in the new relationship is a
   * current id or the id of a candidate record.
   */
  lemma NewIdsComeFromCandidates(resources: seq<Record>, candidates: seq<Record>, mac: bool,
                                 isUuid: string -> bool, add: Option<RefArg>, remove: Option<RefArg>, x: string)
    ensures var update := RelationshipDiff(resources, BoundResolver(candidates, mac, isUuid), add, remove);
            update.NewIds? && x in update.ids ==>
              x in CurrentIds(resources) || exists i | 0 <= i < |candidates| :: candidates[i].id == x
  {
    var resolve := BoundResolver(candidates, mac, isUuid);
    var update := RelationshipDiff(resources, resolve, add, remove);
    if update.NewIds? && x in update.ids {
      DiffMembership(resources, resolve, add, remove, x);
      if !(x in CurrentIds(resources)) {
        var refs := RefsOf(add);
        var k :| 0 <= k < |refs| && resolve(refs[k]) == Found(x);
      }
    }
  }
}
