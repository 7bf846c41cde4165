/**
 * The entity/component storage engine of pico_libs/ecs/world.hpp.
 *
 * A `World` owns a table of entity records (each an id and a component mask),
 * a parallel table of slot versions, a LIFO free list of destroyed slots, a
 * high-water slot count and one dense pool per component type, addressed by
 * slot index. A handle is valid while its version equals both the slot version
 * and the version in the slot's record; destroying bumps the slot version, so
 * the slot is dead until `create` reuses it. Component types are the numbers
 * `0 .. N - 1` that `index_of` gives them; component values are one type `V`.
 */
module Ecs {
  import opened Containers
  import Bitset

  /** `kInitSize`: the length both entity tables start with. */
  const InitSize: nat := 100000

  /** `Entity<TSettings>::Id`. */
  datatype Id = Id(index: nat, version: nat)

  /** An entity record: its id and its component mask. */
  datatype Entity = Entity(id: Id, mask: Bitset.Mask)

  /** A default-constructed record, as `resize` appends it. */
  const Blank: Entity := Entity(Id(0, 0), {})

  /**
   * `ComponentHandle<T>`: an id and a component number, resolved afresh against
   * the pool on every dereference, never a cached address.
   */
  datatype Handle = Handle(id: Id, component: nat)

  /** The predicates a view filters with: `DebugPred`, `FuzzyPred`, `ExactPred`. */
  datatype Pred = Debug | Fuzzy | Exact

  /** Whether a view with predicate `p` and mask `target` accepts a record. */
  predicate Accepts(p: Pred, target: Bitset.Mask, e: Entity)
  {
    match p
    case Debug => true
    case Fuzzy => target * e.mask == target
    case Exact => target == e.mask
  }

  /** A slot is alive when its record carries the slot's current version. */
  predicate Live(es: seq<Entity>, vs: seq<nat>, i: nat)
    requires i < |es| && i < |vs|
  {
    es[i].id.version == vs[i]
  }

  /** Whether the scan stops at slot `i`: the slot is alive and accepted. */
  predicate Selected(es: seq<Entity>, vs: seq<nat>, p: Pred, target: Bitset.Mask, i: nat)
    requires i < |es| && i < |vs|
  {
    Live(es, vs, i) && Accepts(p, target, es[i])
  }

  /** The slots below `n` a traversal with `p` and `target` yields, in the order it yields them. */
  function Scan(es: seq<Entity>, vs: seq<nat>, n: nat, p: Pred, target: Bitset.Mask): seq<nat>
    requires n <= |es| && n <= |vs|
  {
    if n == 0 then []
    else Scan(es, vs, n - 1, p, target) + (if Selected(es, vs, p, target, n - 1) then [n - 1] else [])
  }

  /** The live slots below `n`. */
  function LiveSet(es: seq<Entity>, vs: seq<nat>, n: nat): set<nat>
    requires n <= |es| && n <= |vs|
  {
    set i: nat | i < n && Live(es, vs, i)
  }

  predicate Increasing(s: seq<nat>)
  {
    forall j, k :: 0 <= j < k < |s| ==> s[j] < s[k]
  }

  /** The component values of slot `i` in the pools `args` name, in that order. */
  function Gather<V>(pools: seq<seq<V>>, args: seq<nat>, i: nat): (r: seq<V>)
    requires forall k :: 0 <= k < |args| ==> args[k] < |pools| && i < |pools[args[k]]|
    ensures |r| == |args|
    ensures forall k :: 0 <= k < |args| ==> r[k] == pools[args[k]][i]
  {
    if args == [] then [] else [pools[args[0]][i]] + Gather(pools, args[1..], i)
  }

  /** A view iterator's `operator*`: the tuple of the requested components of slot `i`, if every pool reaches it. */
  function Tuple<V>(pools: seq<seq<V>>, args: seq<nat>, i: nat): Option<seq<V>>
  {
    if forall k :: 0 <= k < |args| ==> args[k] < |pools| && i < |pools[args[k]]|
    then Some(Gather(pools, args, i))
    else None
  }

  /** A slot whose pools reach every bit of `mask` yields a full tuple for any requested set inside `mask`. */
  lemma FullTuple<V>(pools: seq<seq<V>>, args: seq<nat>, i: nat, mask: Bitset.Mask)
    requires forall t :: t in mask ==> t < |pools| && i < |pools[t]|
    requires Bitset.Requested(args) <= mask
    ensures Tuple(pools, args, i).Some?
  {
    forall k | 0 <= k < |args|
      ensures args[k] < |pools| && i < |pools[args[k]]|
    {
      assert args[k] in mask;
    }
  }

  /**
   * A traversal yields, in ascending order, exactly the slots below `n` that are
   * alive and accepted by its predicate.
   */
  lemma {:induction false} ScanSpec(es: seq<Entity>, vs: seq<nat>, n: nat, p: Pred, target: Bitset.Mask)
    requires n <= |es| && n <= |vs|
    ensures forall i: nat :: i in Scan(es, vs, n, p, target) <==> i < n && Selected(es, vs, p, target, i)
    ensures forall k :: 0 <= k < |Scan(es, vs, n, p, target)| ==> Scan(es, vs, n, p, target)[k] < n
    ensures Increasing(Scan(es, vs, n, p, target))
  {
    if n > 0 {
      ScanSpec(es, vs, n - 1, p, target);
      var before := Scan(es, vs, n - 1, p, target);
      if Selected(es, vs, p, target, n - 1) {
        assert Scan(es, vs, n, p, target) == before + [n - 1];
      } else {
        assert Scan(es, vs, n, p, target) == before;
      }
    }
  }

  /** Skipping slots a traversal does not stop at leaves its output unchanged. */
  lemma {:induction false} ScanSkip(es: seq<Entity>, vs: seq<nat>, a: nat, b: nat, p: Pred, target: Bitset.Mask)
    requires a <= b <= |es| && b <= |vs|
    requires forall k :: a <= k < b ==> !Selected(es, vs, p, target, k)
    ensures Scan(es, vs, b, p, target) == Scan(es, vs, a, p, target)
    decreases b
  {
    if a < b {
      ScanSkip(es, vs, a, b - 1, p, target);
    }
  }

  /** The unfiltered traversal does not look at its mask. */
  lemma {:induction false} ScanDebugAnyTarget(es: seq<Entity>, vs: seq<nat>, n: nat, target: Bitset.Mask)
    requires n <= |es| && n <= |vs|
    ensures Scan(es, vs, n, Debug, target) == Scan(es, vs, n, Debug, {})
  {
    if n > 0 {
      ScanDebugAnyTarget(es, vs, n - 1, target);
    }
  }

  /** The unfiltered traversal yields one slot per live slot. */
  lemma {:induction false} ScanLiveCount(es: seq<Entity>, vs: seq<nat>, n: nat, target: Bitset.Mask)
    requires n <= |es| && n <= |vs|
    ensures |Scan(es, vs, n, Debug, target)| == |LiveSet(es, vs, n)|
  {
    if n > 0 {
      ScanLiveCount(es, vs, n - 1, target);
      var before := LiveSet(es, vs, n - 1);
      assert n - 1 !in before;
      if Live(es, vs, n - 1) {
        assert LiveSet(es, vs, n) == before + {n - 1};
        assert |Scan(es, vs, n, Debug, target)| == |Scan(es, vs, n - 1, Debug, target)| + 1;
      } else {
        assert LiveSet(es, vs, n) == before;
      }
    }
  }

  /** The superset predicate is mask inclusion; the exact one is mask equality. */
  lemma AcceptsMeaning(target: Bitset.Mask, e: Entity)
    ensures Accepts(Debug, target, e)
    ensures Accepts(Fuzzy, target, e) <==> target <= e.mask
    ensures Accepts(Exact, target, e) <==> target == e.mask
  {
    if target <= e.mask {
      assert target * e.mask == target;
    }
  }

  /**
   * Given live records with masks {A}, {A, B} and {A, B, C}, the superset view of
   * {A, B} yields the second and third, the exact view only the second.
   */
  lemma ExactVersusFuzzy()
    ensures var es := [Entity(Id(0, 0), {0}), Entity(Id(1, 0), {0, 1}), Entity(Id(2, 0), {0, 1, 2})];
      && Scan(es, [0, 0, 0], 3, Fuzzy, {0, 1}) == [1, 2]
      && Scan(es, [0, 0, 0], 3, Exact, {0, 1}) == [1]
  {
    var es := [Entity(Id(0, 0), {0}), Entity(Id(1, 0), {0, 1}), Entity(Id(2, 0), {0, 1, 2})];
    AcceptsMeaning({0, 1}, es[0]);
    AcceptsMeaning({0, 1}, es[1]);
    AcceptsMeaning({0, 1}, es[2]);
    assert 1 !in es[0].mask;
    assert es[2].mask != {0, 1} by { assert 2 in es[2].mask; }
  }

  /**
   * Both tables have the same length, at least `kInitSize`, and reach the
   * high-water count; the slots past it are as `resize` left them.
   */
  predicate Shaped(es: seq<Entity>, vs: seq<nat>, count: nat)
  {
    && |vs| == |es|
    && InitSize <= |es|
    && count <= |es|
    && (forall i :: count <= i < |es| ==> es[i] == Blank && vs[i] == 0)
  }

  /** A used slot's record names the slot and lags the slot version by at most one. */
  predicate RecordsSound(es: seq<Entity>, vs: seq<nat>, count: nat)
    requires count <= |es| && count <= |vs|
  {
    forall i :: 0 <= i < count ==>
      && es[i].id.index == i
      && (Live(es, vs, i) || es[i].id.version + 1 == vs[i])
  }

  /** A set mask bit of a used slot names a component type whose pool reaches the slot. */
  predicate MasksCovered<V>(es: seq<Entity>, pools: seq<seq<V>>, count: nat)
    requires count <= |es|
  {
    forall i :: 0 <= i < count ==> SlotCovered(pools, i, es[i])
  }

  /** Every component type in the record's mask has a pool that reaches slot `i`. */
  predicate SlotCovered<V>(pools: seq<seq<V>>, i: nat, e: Entity)
  {
    forall t :: t in e.mask ==> t < |pools| && i < |pools[t]|
  }

  /** Pools that only grew, and records that keep their masks, stay covered. */
  lemma CoverLonger<V>(es: seq<Entity>, es': seq<Entity>, pools: seq<seq<V>>, pools': seq<seq<V>>, count: nat)
    requires count <= |es| && count <= |es'| && MasksCovered(es, pools, count)
    requires forall i :: 0 <= i < count ==> es'[i].mask == es[i].mask
    requires |pools| == |pools'| && forall t :: 0 <= t < |pools| ==> |pools[t]| <= |pools'[t]|
    ensures MasksCovered(es', pools', count)
  {
    forall i | 0 <= i < count
      ensures SlotCovered(pools', i, es'[i])
    {
      assert SlotCovered(pools, i, es[i]);
    }
  }

  /** Replacing record `j` by one whose mask the pools cover keeps every mask covered. */
  lemma CoverRecord<V>(es: seq<Entity>, pools: seq<seq<V>>, count: nat, count': nat, j: nat, e: Entity)
    requires count <= |es| && count' <= |es| && j < count' && MasksCovered(es, pools, count)
    requires count' <= count + 1 && (count' == count + 1 ==> j == count)
    requires SlotCovered(pools, j, e)
    ensures MasksCovered(es[j := e], pools, count')
  {
  }

  /** The free list holds each dead used slot exactly once. */
  predicate FreeListExact(free: seq<nat>, es: seq<Entity>, vs: seq<nat>, count: nat)
    requires count <= |es| && count <= |vs|
  {
    && (forall k :: 0 <= k < |free| ==> free[k] < count && !Live(es, vs, free[k]))
    && (forall j, k :: 0 <= j < k < |free| ==> free[j] != free[k])
    && (forall i :: 0 <= i < count && !Live(es, vs, i) ==> i in free)
  }

  /** `invalidate`: a handle is valid when its slot is used and both versions match it. */
  predicate ValidId(es: seq<Entity>, vs: seq<nat>, count: nat, id: Id)
  {
    && id.index < count
    && id.index < |vs| && id.version == vs[id.index]
    && id.index < |es| && id.version == es[id.index].id.version
  }

  /**
   * The engine's invariant over its state: the tables' shape, sound records,
   * pools covering every mask bit, an exact free list, and `live` live slots.
   */
  ghost predicate Inv<V>(free: seq<nat>, es: seq<Entity>, vs: seq<nat>, count: nat, pools: seq<seq<V>>, n: nat, live: int)
  {
    && Shaped(es, vs, count)
    && |pools| == n
    && RecordsSound(es, vs, count)
    && MasksCovered(es, pools, count)
    && FreeListExact(free, es, vs, count)
    && |LiveSet(es, vs, count)| == live
  }

  /**
   * Reusing the front of the free list brings that dead slot back to life under
   * its current version; the new handle was invalid and is the only one that
   * becomes valid.
   */
  lemma ReuseFront<V>(free: seq<nat>, es: seq<Entity>, vs: seq<nat>, count: nat, pools: seq<seq<V>>, n: nat, live: int)
    requires Inv(free, es, vs, count, pools, n, live) && free != []
    ensures var f := free[0]; var id := Id(f, vs[f]);
      && Inv(free[1..], es[f := Entity(id, {})], vs, count, pools, n, live + 1)
      && !ValidId(es, vs, count, id)
      && (forall h :: ValidId(es[f := Entity(id, {})], vs, count, h) <==> ValidId(es, vs, count, h) || h == id)
  {
    var f := free[0];
    var id := Id(f, vs[f]);
    Revive(es, vs, count, f, Entity(id, {}));
    PopFree(free, es, vs, count, Entity(id, {}));
    CoverRecord(es, pools, count, count, f, Entity(id, {}));
    RecordSound(es, vs, count, count, f, Entity(id, {}));
  }

  /** Replacing record `j` by one that names slot `j` at the slot version keeps the records sound. */
  lemma RecordSound(es: seq<Entity>, vs: seq<nat>, count: nat, count': nat, j: nat, e: Entity)
    requires count <= |es| && count' <= |es| && |vs| == |es| && RecordsSound(es, vs, count)
    requires j < count' && count' <= count + 1 && (count' == count + 1 ==> j == count)
    requires e.id == Id(j, vs[j])
    ensures RecordsSound(es[j := e], vs, count')
  {
  }

  /** Giving a dead used slot a record at the slot version adds exactly that slot to the live set. */
  lemma Revive(es: seq<Entity>, vs: seq<nat>, count: nat, f: nat, e: Entity)
    requires count <= |es| && count <= |vs| && f < count && !Live(es, vs, f) && e.id.version == vs[f]
    ensures LiveSet(es[f := e], vs, count) == LiveSet(es, vs, count) + {f}
    ensures |LiveSet(es[f := e], vs, count)| == |LiveSet(es, vs, count)| + 1
  {
    assert LiveSet(es[f := e], vs, count) == LiveSet(es, vs, count) + {f};
  }

  /** Reviving the front of an exact free list leaves its rest exact. */
  lemma PopFree(free: seq<nat>, es: seq<Entity>, vs: seq<nat>, count: nat, e: Entity)
    requires count <= |es| && count <= |vs| && FreeListExact(free, es, vs, count) && free != []
    requires e.id.version == vs[free[0]]
    ensures FreeListExact(free[1..], es[free[0] := e], vs, count)
  {
    var es' := es[free[0] := e];
    forall i | 0 <= i < count && !Live(es', vs, i)
      ensures i in free[1..]
    {
      assert i in free;
      var k :| 0 <= k < |free| && free[k] == i;
      assert k != 0;
      assert free[1..][k - 1] == i;
    }
  }

  /**
   * Appending slot `count` (reachable after `prepare_entity_create`): the slot is
   * still as `resize` made it, so it goes live at version 0 with an empty mask.
   */
  lemma AppendSlot<V>(es: seq<Entity>, vs: seq<nat>, count: nat, pools: seq<seq<V>>, n: nat, live: int)
    requires Inv([], es, vs, count, pools, n, live) && count < |es|
    ensures var id := Id(count, vs[count]);
      && vs[count] == 0 && es[count].(id := id) == Entity(id, {})
      && Inv([], es[count := Entity(id, {})], vs, count + 1, pools, n, live + 1)
      && !ValidId(es, vs, count, id)
      && (forall h :: ValidId(es[count := Entity(id, {})], vs, count + 1, h) <==> ValidId(es, vs, count, h) || h == id)
  {
    var id := Id(count, vs[count]);
    var es' := es[count := Entity(id, {})];
    CoverRecord(es, pools, count, count + 1, count, Entity(id, {}));
    RecordSound(es, vs, count, count + 1, count, Entity(id, {}));
    Extend(es, vs, count, Entity(id, {}));
  }

  /** Using slot `count` with a record at the slot version adds exactly that slot to the live set. */
  lemma Extend(es: seq<Entity>, vs: seq<nat>, count: nat, e: Entity)
    requires count < |es| && count < |vs| && e.id.version == vs[count]
    ensures LiveSet(es[count := e], vs, count + 1) == LiveSet(es, vs, count) + {count}
    ensures |LiveSet(es[count := e], vs, count + 1)| == |LiveSet(es, vs, count)| + 1
  {
    assert LiveSet(es[count := e], vs, count + 1) == LiveSet(es, vs, count) + {count};
  }

  /**
   * Bumping the version of a valid handle's slot kills the slot, puts it on the
   * free list and invalidates exactly that handle.
   */
  lemma KillSlot<V>(free: seq<nat>, es: seq<Entity>, vs: seq<nat>, count: nat, pools: seq<seq<V>>, n: nat, live: int, id: Id)
    requires Inv(free, es, vs, count, pools, n, live) && ValidId(es, vs, count, id)
    ensures var vs' := vs[id.index := id.version + 1];
      && Inv([id.index] + free, es, vs', count, pools, n, live - 1)
      && (forall h :: ValidId(es, vs', count, h) <==> ValidId(es, vs, count, h) && h != id)
  {
    var vs' := vs[id.index := id.version + 1];
    assert LiveSet(es, vs', count) == LiveSet(es, vs, count) - {id.index};
    var free' := [id.index] + free;
    forall j, k | 0 <= j < k < |free'|
      ensures free'[j] != free'[k]
    {
      if j == 0 {
        assert free'[k] == free[k - 1];
      }
    }
  }

  /**
   * Growing both tables by `resize` to twice the count (when the count has
   * reached their size) keeps the invariant and every handle's validity.
   */
  lemma GrowTables<V>(free: seq<nat>, es: seq<Entity>, vs: seq<nat>, count: nat, pools: seq<seq<V>>, n: nat, live: int)
    requires Inv(free, es, vs, count, pools, n, live)
    ensures Inv(free, Grown(es, count, Blank), Grown(vs, count, 0), count, pools, n, live)
    ensures forall h :: ValidId(Grown(es, count, Blank), Grown(vs, count, 0), count, h) <==> ValidId(es, vs, count, h)
  {
    var es', vs' := Grown(es, count, Blank), Grown(vs, count, 0);
    CoverLonger(es, es', pools, pools, count);
    assert LiveSet(es', vs', count) == LiveSet(es, vs, count);
  }

  /**
   * Replacing a used slot's record by one with the same id and a mask the
   * pools cover keeps the invariant and every handle's validity.
   */
  lemma SetRecord<V>(free: seq<nat>, es: seq<Entity>, vs: seq<nat>, count: nat, pools: seq<seq<V>>, n: nat, live: int, i: nat, e: Entity)
    requires Inv(free, es, vs, count, pools, n, live) && i < count
    requires e.id == es[i].id && SlotCovered(pools, i, e)
    ensures Inv(free, es[i := e], vs, count, pools, n, live)
    ensures forall h :: ValidId(es[i := e], vs, count, h) <==> ValidId(es, vs, count, h)
  {
    CoverRecord(es, pools, count, count, i, e);
    assert LiveSet(es[i := e], vs, count) == LiveSet(es, vs, count);
  }

  /** Replacing a pool by one at least as long keeps the invariant. */
  lemma SetPool<V>(free: seq<nat>, es: seq<Entity>, vs: seq<nat>, count: nat, pools: seq<seq<V>>, n: nat, live: int, t: nat, p: seq<V>)
    requires Inv(free, es, vs, count, pools, n, live) && t < |pools| && |pools[t]| <= |p|
    ensures Inv(free, es, vs, count, pools[t := p], n, live)
  {
    CoverLonger(es, es, pools, pools[t := p], count);
  }

  class World<V> {
    /** `ComponentList::size`: the number of component types and the mask width. */
    const N: nat
    /** `T{}`: what a component pool holds in the slots it grew into. */
    const blank: V

    /** `entities_`: one record per slot. */
    var entities: seq<Entity>
    /** `entity_version_`: the live version of each slot. */
    var versions: seq<nat>
    /** `free_entities_`: destroyed slots, front first. */
    var free: seq<nat>
    /** `entity_count_`: the number of slots ever handed out. */
    var count: nat
    /** `components_pool_`: pool `t` holds the values of component type `t`. */
    var pools: seq<seq<V>>

    /** The number of `create` and of `destroy` calls so far. */
    ghost var created: nat
    ghost var destroyed: nat

    ghost predicate Valid()
      reads this
    {
      Inv(free, entities, versions, count, pools, N, created - destroyed)
    }

    /** `invalidate`: the checks every operation on a handle asserts. */
    predicate IsValid(id: Id)
      reads this
    {
      ValidId(entities, versions, count, id)
    }

    /** `ComponentHandle<T>::operator*`: the pool entry the handle names, if the pool reaches it. */
    function Deref(h: Handle): Option<V>
      reads this
    {
      if h.component < |pools| && h.id.index < |pools[h.component]|
      then Some(pools[h.component][h.id.index])
      else None
    }

    /** A view iterator's `operator*`: the tuple of the requested components of slot `i`. */
    function Components(args: seq<nat>, i: nat): Option<seq<V>>
      reads this
    {
      Tuple(pools, args, i)
    }

    /** `World()`: both entity tables at `kInitSize` default slots, every pool empty. */
    constructor (n: nat, blank: V)
      ensures Valid()
      ensures N == n && this.blank == blank
      ensures entities == seq(InitSize, _ => Blank) && versions == seq(InitSize, _ => 0)
      ensures free == [] && count == 0 && pools == seq(n, _ => [])
      ensures created == 0 && destroyed == 0
    {
      N := n;
      this.blank := blank;
      entities := seq(InitSize, _ => Blank);
      versions := seq(InitSize, _ => 0);
      free := [];
      count := 0;
      pools := seq(n, _ => []);
      created, destroyed := 0, 0;
      new;
      assert LiveSet(entities, versions, 0) == {};
      assert Inv(free, entities, versions, count, pools, N, 0);
    }

    /**
     * `prepare_entity_create`: when the high-water count has reached the table
     * size, both tables are resized to twice the count; used slots are kept.
     */
    method PrepareEntityCreate()
      requires Valid()
      modifies this
      ensures Valid()
      ensures entities == Grown(old(entities), count, Blank) && versions == Grown(old(versions), count, 0)
      ensures count < |entities| == |versions|
      ensures count == old(count) && free == old(free) && pools == old(pools)
      ensures created == old(created) && destroyed == old(destroyed)
      ensures forall h :: IsValid(h) <==> old(IsValid(h))
    {
      GrowTables(free, entities, versions, count, pools, N, created - destroyed);
      if count >= |entities| {
        entities := Resize(entities, 2 * count, Blank);
        versions := Resize(versions, 2 * count, 0);
      }
    }

    /**
     * `create`: pops the most recently freed slot and hands out its current
     * version with a cleared mask, or, with an empty free list, appends slot
     * `entity_count_` at version 0. The new handle was not valid before and is
     * the only handle that becomes valid.
     */
    method Create() returns (id: Id)
      requires Valid()
      modifies this
      ensures Valid()
      ensures created == old(created) + 1 && destroyed == old(destroyed)
      ensures pools == old(pools)
      ensures old(free) != [] ==>
        && id == Id(old(free[0]), old(versions[free[0]]))
        && free == old(free[1..]) && count == old(count)
        && versions == old(versions)
        && entities == old(entities)[id.index := Entity(id, {})]
      ensures old(free) == [] ==>
        && id == Id(old(count), 0)
        && free == [] && count == old(count) + 1
        && versions == Grown(old(versions), old(count), 0)
        && entities == Grown(old(entities), old(count), Blank)[id.index := Entity(id, {})]
      ensures IsValid(id) && !old(IsValid(id))
      ensures forall h :: IsValid(h) <==> old(IsValid(h)) || h == id
    {
      if free != [] {
        id := Reuse();
      } else {
        id := Append();
      }
    }

    /**
     * The reuse branch of `create`: pops the front of the free list, hands out
     * the slot's current version, syncs the record's id and clears its mask.
     */
    method Reuse() returns (id: Id)
      requires Valid() && free != []
      modifies this
      ensures Valid()
      ensures created == old(created) + 1 && destroyed == old(destroyed)
      ensures id == Id(old(free[0]), old(versions[free[0]]))
      ensures free == old(free[1..]) && count == old(count) && pools == old(pools)
      ensures versions == old(versions)
      ensures entities == old(entities)[id.index := Entity(id, {})]
      ensures IsValid(id) && !old(IsValid(id))
      ensures forall h :: IsValid(h) <==> old(IsValid(h)) || h == id
    {
      ReuseFront(free, entities, versions, count, pools, N, created - destroyed);
      var index := free[0];
      free := free[1..];
      id := Id(index, versions[index]);
      entities := entities[index := Entity(id, {})];
      created := created + 1;
    }

    /**
     * The append branch of `create`: after `prepare_entity_create`, slot
     * `entity_count_` is handed out at its version (0) and the count goes up.
     */
    method Append() returns (id: Id)
      requires Valid() && free == []
      modifies this
      ensures Valid()
      ensures created == old(created) + 1 && destroyed == old(destroyed)
      ensures id == Id(old(count), 0)
      ensures free == [] && count == old(count) + 1 && pools == old(pools)
      ensures versions == Grown(old(versions), old(count), 0)
      ensures entities == Grown(old(entities), old(count), Blank)[id.index := Entity(id, {})]
      ensures IsValid(id) && !old(IsValid(id))
      ensures forall h :: IsValid(h) <==> old(IsValid(h)) || h == id
    {
      PrepareEntityCreate();
      AppendSlot(entities, versions, count, pools, N, created - destroyed);
      id := Id(count, versions[count]);
      entities := entities[count := entities[count].(id := id)];
      count := count + 1;
      created := created + 1;
    }

    /**
     * `destroy`: the slot version goes up by exactly one, which kills the slot and
     * invalidates the handle, and the slot goes to the front of the free list.
     * The record, its mask and the pools are left as they were.
     */
    method Destroy(id: Id)
      requires Valid() && IsValid(id)
      modifies this
      ensures Valid()
      ensures versions == old(versions)[id.index := id.version + 1]
      ensures free == [id.index] + old(free)
      ensures entities == old(entities) && count == old(count) && pools == old(pools)
      ensures created == old(created) && destroyed == old(destroyed) + 1
      ensures forall h :: IsValid(h) <==> old(IsValid(h)) && h != id
    {
      KillSlot(free, entities, versions, count, pools, N, created - destroyed, id);
      versions := versions[id.index := versions[id.index] + 1];
      free := [id.index] + free;
      destroyed := destroyed + 1;
    }

    /**
     * `prepare_component_create<T>`: checks the handle and that the entity lacks
     * `T`, then grows pool `T` to twice the high-water count if the count has
     * reached its size, so that it reaches the handle's slot.
     */
    method PrepareComponentCreate(t: nat, id: Id)
      requires Valid() && IsValid(id)
      requires t < N && t !in entities[id.index].mask
      modifies this
      ensures Valid()
      ensures pools == old(pools)[t := Grown(old(pools[t]), count, blank)]
      ensures id.index < |pools[t]|
      ensures entities == old(entities) && versions == old(versions) && free == old(free) && count == old(count)
      ensures created == old(created) && destroyed == old(destroyed)
    {
      if count >= |pools[t]| {
        SetPool(free, entities, versions, count, pools, N, created - destroyed, t, Resize(pools[t], count * 2, blank));
        pools := pools[t := Resize(pools[t], count * 2, blank)];
      }
    }

    /**
     * `assign<T>`: on a valid handle whose entity lacks `T`, sets bit `T`, keeps
     * every other bit, writes the value into pool `T` at the slot (grown first
     * when needed) and changes no other pool; the returned handle reads it back.
     */
    method Assign(t: nat, id: Id, v: V) returns (h: Handle)
      requires Valid() && IsValid(id)
      requires t < N && t !in entities[id.index].mask
      modifies this
      ensures Valid()
      ensures versions == old(versions) && free == old(free) && count == old(count)
      ensures h == Handle(id, t) && Deref(h) == Some(v)
      ensures entities == old(entities)[id.index := Entity(id, old(entities[id.index].mask) + {t})]
      ensures pools == old(pools)[t := Grown(old(pools[t]), count, blank)[id.index := v]]
      ensures created == old(created) && destroyed == old(destroyed)
      ensures forall g :: IsValid(g) <==> old(IsValid(g))
    {
      PrepareComponentCreate(t, id);
      SetPool(free, entities, versions, count, pools, N, created - destroyed, t, pools[t][id.index := v]);
      pools := pools[t := pools[t][id.index := v]];
      var e := entities[id.index].(id := id, mask := entities[id.index].mask + {t});
      SetRecord(free, entities, versions, count, pools, N, created - destroyed, id.index, e);
      entities := entities[id.index := e];
      h := Handle(id, t);
    }

    /** `has<T>`: on a valid handle, whether the entity holds component `T`. */
    method Has(t: nat, id: Id) returns (b: bool)
      requires Valid() && IsValid(id) && t < N
      ensures b <==> t in entities[id.index].mask
      ensures b ==> Deref(Handle(id, t)).Some?
    {
      b := t in entities[id.index].mask;
    }

    /** `get`: the record of a valid handle, which carries that very handle. */
    method GetEntity(id: Id) returns (e: Entity)
      requires Valid() && IsValid(id)
      ensures e == entities[id.index] && e.id == id
    {
      e := entities[id.index];
    }

    /**
     * `get<T>`: a handle for component `T` of a valid id, made without looking at
     * the mask; it dereferences whenever the entity holds `T`.
     */
    method Get(t: nat, id: Id) returns (h: Handle)
      requires Valid() && IsValid(id) && t < N
      ensures h.id == id && h.component == t
      ensures t in entities[id.index].mask ==> Deref(h).Some?
    {
      h := Handle(id, t);
    }

    /**
     * `get_ptr<T>`: the pool entry of a valid handle when the entity holds `T`,
     * `nullptr` when it does not.
     */
    method GetPtr(t: nat, id: Id) returns (r: Option<V>)
      requires Valid() && IsValid(id) && t < N
      ensures r.Some? <==> t in entities[id.index].mask
      ensures r.Some? ==> id.index < |pools[t]| && r.value == pools[t][id.index]
    {
      if t in entities[id.index].mask {
        r := Some(pools[t][id.index]);
      } else {
        r := None;
      }
    }

    /**
     * `each`: the slots below the high-water count whose record carries the slot
     * version, in ascending order; as many as were created and not destroyed,
     * and each record passed along holds a valid handle to its own slot.
     */
    method Each() returns (visited: seq<nat>)
      requires Valid()
      ensures visited == Scan(entities, versions, count, Debug, {})
      ensures Increasing(visited)
      ensures forall i: nat :: i in visited <==> i < count && Live(entities, versions, i)
      ensures |visited| == created - destroyed
      ensures forall k :: 0 <= k < |visited| ==> visited[k] < count
      ensures forall k :: 0 <= k < |visited| ==>
        entities[visited[k]].id.index == visited[k] && IsValid(entities[visited[k]].id)
    {
      ghost var es, vs := entities, versions;
      assert count <= |es| && count <= |vs|;
      visited := [];
      var i := 0;
      while i < count
        invariant i <= count
        invariant visited == Scan(es, vs, i, Debug, {})
      {
        ghost var before := visited;
        if versions[i] == entities[i].id.version {
          visited := visited + [i];
        }
        assert Selected(es, vs, Debug, {}, i) <==> versions[i] == entities[i].id.version;
        assert Scan(es, vs, i + 1, Debug, {}) == before + (if Selected(es, vs, Debug, {}, i) then [i] else []);
        i := i + 1;
      }
      ScanSpec(entities, versions, count, Debug, {});
      ScanLiveCount(entities, versions, count, {});
      forall k | 0 <= k < |visited|
        ensures entities[visited[k]].id.index == visited[k] && IsValid(entities[visited[k]].id)
      {
        assert visited[k] in visited;
      }
    }

    /**
     * `basic_iterator::next`: from slot `i`, the first slot below the high-water
     * count that is alive and accepted, or the count itself.
     */
    method Next(p: Pred, target: Bitset.Mask, i: nat) returns (j: nat)
      requires count <= |entities| && count <= |versions|
      ensures i <= j && (i <= count ==> j <= count) && (count <= i ==> j == i)
      ensures forall k :: i <= k < j ==> !Selected(entities, versions, p, target, k)
      ensures j < count ==> Selected(entities, versions, p, target, j)
    {
      j := i;
      while j < count
        invariant i <= j && (i <= count ==> j <= count) && (count <= i ==> j == i)
        invariant forall k :: i <= k < j ==> !Selected(entities, versions, p, target, k)
      {
        if entities[j].id.version == versions[j] && Accepts(p, target, entities[j]) {
          break;
        }
        j := j + 1;
      }
    }

    /**
     * A traversal of `view_internal<Pred>` for the requested component types:
     * the mask is built from `index_bits_str`, the iterator starts at `begin()`
     * and advances until it equals `end()`.
     */
    method Traverse(p: Pred, args: seq<nat>) returns (slots: seq<nat>)
      requires Valid() && Bitset.InRange(N, args)
      ensures slots == Scan(entities, versions, count, p, Bitset.Requested(args))
    {
      var chars := Bitset.MakeValue(N, args);
      Bitset.MaskOfIndexBits(N, args);
      var target := Bitset.ToBitset(chars, N);
      slots := Iterate(p, target);
    }

    /**
     * The loop `for (auto it = view.begin(); it != view.end(); ++it)`: `begin()`
     * runs `next` from 0, `++` from one past the current slot, and `end()` sits
     * at the high-water count.
     */
    method Iterate(p: Pred, target: Bitset.Mask) returns (slots: seq<nat>)
      requires Valid()
      ensures slots == Scan(entities, versions, count, p, target)
    {
      ghost var es, vs := entities, versions;
      assert count <= |es| && count <= |vs|;
      slots := [];
      var it := Next(p, target, 0);
      ScanSkip(es, vs, 0, it, p, target);
      while it != count
        invariant it <= count
        invariant slots == Scan(es, vs, it, p, target)
        invariant it < count ==> Selected(es, vs, p, target, it)
        decreases count - it
      {
        assert Scan(es, vs, it + 1, p, target) == slots + [it];
        slots := slots + [it];
        var next := Next(p, target, it + 1);
        ScanSkip(es, vs, it + 1, next, p, target);
        it := next;
      }
    }

    /**
     * `fuzzy_view<Args...>`: the live slots whose mask holds every requested
     * component, in ascending order; each yields a full tuple of components.
     */
    method FuzzyView(args: seq<nat>) returns (slots: seq<nat>)
      requires Valid() && Bitset.InRange(N, args)
      ensures slots == Scan(entities, versions, count, Fuzzy, Bitset.Requested(args))
      ensures Increasing(slots)
      ensures forall i: nat :: i in slots <==>
        i < count && Live(entities, versions, i) && Bitset.Requested(args) <= entities[i].mask
      ensures forall k :: 0 <= k < |slots| ==> Components(args, slots[k]).Some?
    {
      slots := Traverse(Fuzzy, args);
      var target := Bitset.Requested(args);
      ScanSpec(entities, versions, count, Fuzzy, target);
      forall i | 0 <= i < |entities|
        ensures Accepts(Fuzzy, target, entities[i]) <==> target <= entities[i].mask
      {
        AcceptsMeaning(target, entities[i]);
      }
      forall k | 0 <= k < |slots|
        ensures Components(args, slots[k]).Some?
      {
        assert slots[k] in slots;
        assert SlotCovered(pools, slots[k], entities[slots[k]]);
        FullTuple(pools, args, slots[k], entities[slots[k]].mask);
      }
    }

    /**
     * `exact_view<Args...>`: the live slots whose mask is exactly the requested
     * set, in ascending order; each yields a full tuple of components.
     */
    method ExactView(args: seq<nat>) returns (slots: seq<nat>)
      requires Valid() && Bitset.InRange(N, args)
      ensures Increasing(slots)
      ensures forall i: nat :: i in slots <==>
        i < count && Live(entities, versions, i) && Bitset.Requested(args) == entities[i].mask
      ensures forall k :: 0 <= k < |slots| ==> Components(args, slots[k]).Some?
    {
      slots := Traverse(Exact, args);
      ScanSpec(entities, versions, count, Exact, Bitset.Requested(args));
      forall k | 0 <= k < |slots|
        ensures Components(args, slots[k]).Some?
      {
        assert slots[k] in slots;
        assert SlotCovered(pools, slots[k], entities[slots[k]]);
        FullTuple(pools, args, slots[k], entities[slots[k]].mask);
      }
    }

    /** `debug_view<Args...>`: every live slot, in ascending order, as `each` visits them. */
    method DebugView(args: seq<nat>) returns (slots: seq<nat>)
      requires Valid() && Bitset.InRange(N, args)
      ensures Increasing(slots)
      ensures forall i: nat :: i in slots <==> i < count && Live(entities, versions, i)
      ensures slots == Scan(entities, versions, count, Debug, {})
    {
      slots := Traverse(Debug, args);
      ScanDebugAnyTarget(entities, versions, count, Bitset.Requested(args));
      ScanSpec(entities, versions, count, Debug, {});
    }

    /**
     * Assignment through a reference a view yielded: `std::get<t>(*it) = v`
     * writes pool `t` at the slot and nothing else.
     */
    method WriteThrough(t: nat, i: nat, v: V)
      requires Valid() && t < N && i < |pools[t]|
      modifies this
      ensures Valid()
      ensures pools == old(pools)[t := old(pools[t])[i := v]]
      ensures entities == old(entities) && versions == old(versions) && free == old(free) && count == old(count)
      ensures created == old(created) && destroyed == old(destroyed)
    {
      SetPool(free, entities, versions, count, pools, N, created - destroyed, t, pools[t][i := v]);
      pools := pools[t := pools[t][i := v]];
    }

    /**
     * Destroying a live entity and creating one right after hands back the same
     * slot at the next version: the free list is LIFO.
     */
    method Recycle(id: Id) returns (id': Id)
      requires Valid() && IsValid(id)
      modifies this
      ensures Valid()
      ensures id' == Id(id.index, id.version + 1)
      ensures IsValid(id') && !IsValid(id)
      ensures forall h :: IsValid(h) <==> (old(IsValid(h)) && h != id) || h == id'
      ensures count == old(count) && free == old(free) && pools == old(pools)
      ensures versions == old(versions)[id.index := id.version + 1]
      ensures entities == old(entities)[id.index := Entity(id', {})]
      ensures created == old(created) + 1 && destroyed == old(destroyed) + 1
    {
      Destroy(id);
      id' := Create();
    }

    /**
     * Writes `v` into pool `t` at each of the given distinct slots, one
     * write-through at a time; every other entry and all entity state stay.
     */
    method WriteAll(slots: seq<nat>, t: nat, v: V)
      requires Valid() && t < N && Increasing(slots)
      requires forall k :: 0 <= k < |slots| ==> slots[k] < |pools[t]|
      modifies this
      ensures Valid()
      ensures |pools| == |old(pools)| && |pools[t]| == |old(pools[t])|
      ensures forall k :: 0 <= k < |slots| ==> pools[t][slots[k]] == v
      ensures forall j :: 0 <= j < |pools[t]| && j !in slots ==> pools[t][j] == old(pools[t][j])
      ensures forall u :: 0 <= u < |pools| && u != t ==> pools[u] == old(pools[u])
      ensures entities == old(entities) && versions == old(versions) && count == old(count)
      ensures free == old(free) && created == old(created) && destroyed == old(destroyed)
    {
      for k := 0 to |slots|
        invariant Valid()
        invariant entities == old(entities) && versions == old(versions) && count == old(count)
        invariant free == old(free) && created == old(created) && destroyed == old(destroyed)
        invariant |pools| == |old(pools)| && |pools[t]| == |old(pools[t])|
        invariant forall j :: 0 <= j < k ==> pools[t][slots[j]] == v
        invariant forall j :: 0 <= j < |pools[t]| && j !in slots[..k] ==> pools[t][j] == old(pools[t][j])
        invariant forall u :: 0 <= u < |pools| && u != t ==> pools[u] == old(pools[u])
      {
        assert slots[..k + 1] == slots[..k] + [slots[k]];
        WriteThrough(t, slots[k], v);
      }
    }

    /**
     * The traversal of the library's test: write `v` into component `t` of every
     * slot a superset view yields, then traverse the same view again. The second
     * traversal yields the same slots, and each now holds `v` in pool `t`.
     */
    method RewriteView(args: seq<nat>, t: nat, v: V) returns (first: seq<nat>, second: seq<nat>)
      requires Valid() && Bitset.InRange(N, args) && t in args
      modifies this
      ensures Valid()
      ensures first == Scan(entities, versions, count, Fuzzy, Bitset.Requested(args))
      ensures second == first
      ensures forall k :: 0 <= k < |second| ==> second[k] < |pools[t]| && pools[t][second[k]] == v
      ensures |pools| == |old(pools)| && |pools[t]| == |old(pools[t])|
      ensures forall j :: 0 <= j < |pools[t]| && j !in first ==> pools[t][j] == old(pools[t][j])
      ensures forall u :: 0 <= u < |pools| && u != t ==> pools[u] == old(pools[u])
      ensures entities == old(entities) && versions == old(versions) && count == old(count)
      ensures free == old(free) && created == old(created) && destroyed == old(destroyed)
    {
      first := FuzzyView(args);
      forall k | 0 <= k < |first|
        ensures first[k] < |pools[t]|
      {
        assert first[k] in first;
        assert SlotCovered(pools, first[k], entities[first[k]]);
      }
      WriteAll(first, t, v);
      second := FuzzyView(args);
    }
  }
}
