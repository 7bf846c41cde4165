/**
 * The older revision of the storage engine, ecs/include/world.hpp.
 *
 * Slots are only ever appended: `create` pre-increments the slot version, so
 * a fresh slot is handed out at version 1, and nothing destroys an entity.
 * `assign<T>` bumps the slot version once more and writes the new version
 * back into the caller's id and into the record. There is one view, the
 * superset view, and neither it nor `each` looks at versions.
 */
module LegacyEcs {
  import opened Containers
  import Bitset
  import Ecs

  /** `kInitSize`: the length both entity tables start with. */
  const InitSize: nat := 200

  /** `Entity<TSettings>::Id`: the slot (`id`) and its version. */
  datatype Id = Id(id: nat, version: nat)

  /** An entity record: its id and its component mask. */
  datatype Entity = Entity(id: Id, mask: Bitset.Mask)

  /** A default-constructed record, as `resize` appends it. */
  const Blank: Entity := Entity(Id(0, 0), {})

  /** The iterator's test: the record's mask holds every bit of the view mask. */
  predicate Superset(target: Bitset.Mask, e: Entity)
  {
    target * e.mask == target
  }

  /** The slots below `n` a view with mask `target` yields, in the order it yields them. */
  function Matches(es: seq<Entity>, n: nat, target: Bitset.Mask): seq<nat>
    requires n <= |es|
  {
    if n == 0 then []
    else Matches(es, n - 1, target) + (if Superset(target, es[n - 1]) then [n - 1] else [])
  }

  /**
   * A view yields, in ascending order, exactly the slots below `n` whose mask
   * includes the view mask, whatever their versions.
   */
  lemma {:induction false} MatchesSpec(es: seq<Entity>, n: nat, target: Bitset.Mask)
    requires n <= |es|
    ensures forall i: nat :: i in Matches(es, n, target) <==> i < n && target <= es[i].mask
    ensures forall k :: 0 <= k < |Matches(es, n, target)| ==> Matches(es, n, target)[k] < n
    ensures Ecs.Increasing(Matches(es, n, target))
  {
    if n > 0 {
      MatchesSpec(es, n - 1, target);
      SupersetMeaning(target, es[n - 1]);
      var before := Matches(es, n - 1, target);
      if Superset(target, es[n - 1]) {
        assert Matches(es, n, target) == before + [n - 1];
      } else {
        assert Matches(es, n, target) == before;
      }
    }
  }

  /** The iterator's test is mask inclusion. */
  lemma SupersetMeaning(target: Bitset.Mask, e: Entity)
    ensures Superset(target, e) <==> target <= e.mask
  {
    if target <= e.mask {
      assert target * e.mask == target;
    }
  }

  /** Skipping slots the iterator does not stop at leaves its output unchanged. */
  lemma {:induction false} MatchesSkip(es: seq<Entity>, a: nat, b: nat, target: Bitset.Mask)
    requires a <= b <= |es|
    requires forall k :: a <= k < b ==> !Superset(target, es[k])
    ensures Matches(es, b, target) == Matches(es, a, target)
    decreases b
  {
    if a < b {
      MatchesSkip(es, a, b - 1, target);
    }
  }

  /** Every component type in the record's mask has a pool that reaches slot `i`. */
  predicate SlotCovered<V>(pools: seq<seq<V>>, i: nat, e: Entity)
  {
    forall t :: t in e.mask ==> t < |pools| && i < |pools[t]|
  }

  /**
   * The asserts of `prepare_component_create<T>` as written: the record and the
   * slot both carry the id's version and the entity lacks `T`. The slot number
   * is only used to index the tables, never compared with `entity_count_`.
   */
  predicate AssignAdmits(es: seq<Entity>, vs: seq<nat>, id: Id, t: nat)
  {
    && id.id < |es| && id.id < |vs|
    && es[id.id].id.version == id.version
    && vs[id.id] == id.version
    && t !in es[id.id].mask
  }

  /**
   * The asserts with the slot-range check the newer revision's `invalidate`
   * adds: the slot must also be below `entity_count_`.
   */
  predicate AssignAllowed(es: seq<Entity>, vs: seq<nat>, count: nat, id: Id, t: nat)
  {
    AssignAdmits(es, vs, id, t) && id.id < count
  }

  /**
   * As written, `assign` on a new world with the default id `{0, 0}` passes
   * every assert (slot 0 is still a default record at version 0), yet the pool
   * it then writes is empty: `resize(entity_count_ * 2)` with a count of 0
   * leaves it empty, so `pool[0]` is out of range.
   */
  lemma AssignOutOfRange()
    ensures var es := seq(InitSize, _ => Blank); var vs := seq(InitSize, _ => 0);
      && AssignAdmits(es, vs, Id(0, 0), 0)
      && !(0 < |Grown([], 0, 0)|)
  {
  }

  /**
   * As written, `assign` also admits an unused slot that the pool already
   * reaches, with no out-of-range write. After one `create` (slot 0 at version
   * 1) and `assign<0>({0, 1})` (slot 0 at version 2, pool 0 grown to two
   * entries), the id `{1, 0}` of the unused slot 1 passes every assert, the
   * pool reaches slot 1, and the write bumps slot 1 to version 1, so the next
   * `create` hands out `{1, 2}` instead of `{1, 1}`.
   */
  lemma AssignBeyondCount<V>(v: V, blank: V)
    ensures var es := seq(InitSize, i => if i == 0 then Entity(Id(0, 2), {0}) else Blank);
      var vs := seq(InitSize, i => if i == 0 then 2 else 0);
      var pool := Grown([], 1, blank)[0 := v];
      && AssignAdmits(es, vs, Id(1, 0), 0)
      && !AssignAllowed(es, vs, 1, Id(1, 0), 0)
      && 1 < |Grown(pool, 1, blank)|
      && Grown(vs[1 := 1], 1, 0)[1] + 1 == 2
  {
  }

  /** With the range check, the slot is below the size of the pool as `prepare_component_create` leaves it. */
  lemma AssignInRange<V>(es: seq<Entity>, vs: seq<nat>, count: nat, id: Id, t: nat, pool: seq<V>, blank: V)
    requires AssignAllowed(es, vs, count, id, t)
    ensures id.id < |Grown(pool, count, blank)|
  {
  }

  class World<V> {
    /** `ComponentList::size`: the number of component types and the mask width. */
    const N: nat
    /** `T{}`: what a component pool holds in the slots it grew into. */
    const blank: V

    /** `entities_`: one record per slot. */
    var entities: seq<Entity>
    /** `entity_version_`: the version of each slot. */
    var versions: seq<nat>
    /** `entity_count_`: the number of slots handed out. */
    var count: nat
    /** `components_pool_`: pool `t` holds the values of component type `t`. */
    var pools: seq<seq<V>>

    /**
     * The tables have one length, at least `kInitSize`, reaching the count;
     * slots past it are default records at version 0; every used slot's record
     * names the slot and carries its version (nothing ever kills a slot); and
     * every mask bit of a used slot has a pool entry for it.
     */
    ghost predicate Valid()
      reads this
    {
      && |versions| == |entities|
      && InitSize <= |entities|
      && count <= |entities|
      && |pools| == N
      && (forall i :: count <= i < |entities| ==> entities[i] == Blank && versions[i] == 0)
      && (forall i :: 0 <= i < count ==> entities[i].id == Id(i, versions[i]))
      && (forall i :: 0 <= i < count ==> SlotCovered(pools, i, entities[i]))
    }

    /** The id is the current one of a used slot, as the corrected `assign` checks. */
    predicate Current(id: Id)
      reads this
    {
      && id.id < count && id.id < |versions| && id.id < |entities|
      && versions[id.id] == id.version && entities[id.id].id.version == id.version
    }

    /** `component_iterator::operator*`: `pools[t].at(i)` for each requested type, if all are in range. */
    function Components(args: seq<nat>, i: nat): Option<seq<V>>
      reads this
    {
      Ecs.Tuple(pools, args, i)
    }

    /** `World()`: both entity tables at `kInitSize` default slots, every pool empty. */
    constructor (n: nat, blank: V)
      ensures Valid()
      ensures N == n && this.blank == blank
      ensures entities == seq(InitSize, _ => Blank) && versions == seq(InitSize, _ => 0)
      ensures count == 0 && pools == seq(n, _ => [])
    {
      N := n;
      this.blank := blank;
      entities := seq(InitSize, _ => Blank);
      versions := seq(InitSize, _ => 0);
      count := 0;
      pools := seq(n, _ => []);
    }

    /**
     * `prepare_entity_create`: when the count has reached the table size, both
     * tables are resized to twice the count; used slots are kept.
     */
    method PrepareEntityCreate()
      requires Valid()
      modifies this
      ensures Valid()
      ensures entities == Grown(old(entities), count, Blank) && versions == Grown(old(versions), count, 0)
      ensures count < |entities| == |versions|
      ensures count == old(count) && pools == old(pools)
    {
      if count >= |entities| {
        entities := Resize(entities, 2 * count, Blank);
        versions := Resize(versions, 2 * count, 0);
      }
    }

    /**
     * `create`: always appends slot `entity_count_`. Its version is
     * pre-incremented from the 0 a fresh slot holds, so every id is handed out
     * at version 1; the record gets that id and an empty mask. The new id is
     * current and no other id changes status.
     */
    method Create() returns (id: Id)
      requires Valid()
      modifies this
      ensures Valid()
      ensures count == old(count) + 1 && pools == old(pools)
      ensures id == Id(old(count), Grown(old(versions), old(count), 0)[old(count)] + 1)
      ensures id.version == 1
      ensures versions == Grown(old(versions), old(count), 0)[id.id := id.version]
      ensures entities == Grown(old(entities), old(count), Blank)[id.id := Entity(id, {})]
      ensures Current(id) && !old(Current(id))
      ensures forall h :: Current(h) <==> old(Current(h)) || h == id
    {
      PrepareEntityCreate();
      var version := versions[count] + 1;
      versions := versions[count := version];
      id := Id(count, version);
      entities := entities[count := Entity(id, {})];
      count := count + 1;
    }

    /**
     * `prepare_component_create<T>`, with the range check: grows pool `T` to
     * twice the count when the count has reached its size, so that it reaches
     * the id's slot.
     */
    method PrepareComponentCreate(t: nat, id: Id)
      requires Valid() && t < N
      requires AssignAllowed(entities, versions, count, id, t)
      modifies this
      ensures Valid()
      ensures pools == old(pools)[t := Grown(old(pools[t]), count, blank)]
      ensures id.id < |pools[t]|
      ensures entities == old(entities) && versions == old(versions) && count == old(count)
    {
      AssignInRange(entities, versions, count, id, t, pools[t], blank);
      if count >= |pools[t]| {
        pools := pools[t := Resize(pools[t], count * 2, blank)];
        forall i | 0 <= i < count
          ensures SlotCovered(pools, i, entities[i])
        {
          assert SlotCovered(old(pools), i, entities[i]);
        }
      }
    }

    /**
     * `assign<T>(EntityId &id, ...)`: bumps the slot version by one and writes
     * the new id both into the caller's id (the result here) and into the
     * record, sets bit `T` and keeps the others, writes the value into pool
     * `T` at the slot (grown first when needed) and changes no other pool.
     * The old id is no longer current; the new one is.
     */
    method Assign(t: nat, id: Id, v: V) returns (id': Id)
      requires Valid() && t < N
      requires AssignAllowed(entities, versions, count, id, t)
      modifies this
      ensures Valid()
      ensures count == old(count)
      ensures id' == Id(id.id, id.version + 1)
      ensures versions == old(versions)[id.id := id'.version]
      ensures entities == old(entities)[id.id := Entity(id', old(entities[id.id].mask) + {t})]
      ensures pools == old(pools)[t := Grown(old(pools[t]), count, blank)[id.id := v]]
      ensures Current(id') && !Current(id)
      ensures forall h :: Current(h) <==> (old(Current(h)) && h != id) || h == id'
    {
      PrepareComponentCreate(t, id);
      var version := versions[id.id] + 1;
      versions := versions[id.id := version];
      id' := Id(id.id, version);
      var grown := pools;
      pools := pools[t := pools[t][id.id := v]];
      entities := entities[id.id := Entity(id', entities[id.id].mask + {t})];
      forall i | 0 <= i < count
        ensures SlotCovered(pools, i, entities[i])
      {
        if i != id.id {
          assert SlotCovered(grown, i, entities[i]);
        } else {
          assert SlotCovered(grown, i, old(entities[i]));
        }
      }
    }

    /**
     * `each`: the callback receives every slot below the count with its record,
     * in ascending order, live or not; each record names its own slot and
     * carries that slot's current id.
     */
    method Each() returns (visited: seq<nat>, records: seq<Entity>)
      requires Valid()
      ensures |visited| == count && forall k :: 0 <= k < count ==> visited[k] == k
      ensures |records| == count && forall k :: 0 <= k < count ==> records[k] == entities[k]
      ensures forall k :: 0 <= k < count ==> records[k].id.id == k && Current(records[k].id)
    {
      visited, records := [], [];
      var i := 0;
      while i < count
        invariant i <= count
        invariant |visited| == i && forall k :: 0 <= k < i ==> visited[k] == k
        invariant |records| == i && forall k :: 0 <= k < i ==> records[k] == entities[k]
      {
        visited := visited + [i];
        records := records + [entities[i]];
        i := i + 1;
      }
    }

    /**
     * `component_iterator::next`: from slot `i`, the first slot below the count
     * whose mask includes the view mask, or the count itself.
     */
    method Next(target: Bitset.Mask, i: nat) returns (j: nat)
      requires count <= |entities|
      ensures i <= j && (i <= count ==> j <= count) && (count <= i ==> j == i)
      ensures forall k :: i <= k < j ==> !Superset(target, entities[k])
      ensures j < count ==> Superset(target, entities[j])
    {
      j := i;
      while j < count
        invariant i <= j && (i <= count ==> j <= count) && (count <= i ==> j == i)
        invariant forall k :: i <= k < j ==> !Superset(target, entities[k])
      {
        if target * entities[j].mask == target {
          break;
        }
        j := j + 1;
      }
    }

    /**
     * A traversal of `view<Args...>()` with view mask `target`: from `begin()`
     * (the iterator at 0) until it equals `end()` (the iterator at the count).
     * It yields, in ascending order, exactly the used slots whose mask
     * includes `target`, and each yields a full tuple of the requested
     * components `args` when their bits make up `target`.
     */
    method View(target: Bitset.Mask, args: seq<nat>) returns (slots: seq<nat>)
      requires Valid()
      ensures slots == Matches(entities, count, target)
      ensures Ecs.Increasing(slots)
      ensures forall i: nat :: i in slots <==> i < count && target <= entities[i].mask
      ensures target == Bitset.Requested(args) ==> forall k :: 0 <= k < |slots| ==> Components(args, slots[k]).Some?
    {
      slots := Iterate(target);
      MatchesSpec(entities, count, target);
      if target == Bitset.Requested(args) {
        forall k | 0 <= k < |slots|
          ensures Components(args, slots[k]).Some?
        {
          assert slots[k] in slots;
          assert SlotCovered(pools, slots[k], entities[slots[k]]);
          Ecs.FullTuple(pools, args, slots[k], entities[slots[k]].mask);
        }
      }
    }

    /** The iterator's walk from `begin()` to `end()`: the matching slots in order. */
    method Iterate(target: Bitset.Mask) returns (slots: seq<nat>)
      requires count <= |entities|
      ensures slots == Matches(entities, count, target)
    {
      slots := [];
      var it := Next(target, 0);
      MatchesSkip(entities, 0, it, target);
      while it != count
        invariant it <= count
        invariant slots == Matches(entities, it, target)
        invariant it < count ==> Superset(target, entities[it])
        decreases count - it
      {
        assert Matches(entities, it + 1, target) == slots + [it];
        slots := slots + [it];
        var next := Next(target, it + 1);
        MatchesSkip(entities, it + 1, next, target);
        it := next;
      }
    }
  }
}
