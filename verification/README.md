# pico_libs entity/component storage in Dafny

This project models the in-memory entity/component storage engine of
pico_libs, together with the compile-time helpers the engine is built on.

- `World` in `pico_libs/ecs/world.hpp` (module `Ecs`, file `world.dfy`):
  - State: a table of entity records (`{id: {index, version}, mask}`), a parallel table of slot versions, a LIFO free list of destroyed slots, a high-water slot count and one pool per component type.
  - Operations: `create` (reuse or append), `destroy`, `assign<T>`, `has<T>`, `get`, `get<T>`, `get_ptr<T>`, `each` and the three views.
  - The views are debug, fuzzy (superset) and exact. Each is a traversal driven by `basic_iterator::next`.
  - The model is a class whose sequence fields the methods reassign. A ghost invariant `Valid()` ties the tables, the free list, the masks and the pools together.
- The older `World` in `ecs/include/world.hpp` (module `LegacyEcs`, file `legacy_world.dfy`):
  - `create` is append-only and pre-increments the version.
  - `assign<T>` bumps the version and writes it back into the caller's id.
  - `each` and the single superset view do not look at versions.
- The type-list metafunctions `index_of`, `type_at`, `contains` and `rename` (module `TypeList`), and the older `nth_type`, `is_in_type_list` and `rename` (module `LegacyTypeList`). They are recursive functions over a pack: a template name plus a sequence of type names.
- The mask builders of `pico_libs/mpl/bitset.hpp` (module `Bitset`):
  - `index_bits_str::make_value` is a method over an array, proved equal to a fold.
  - That string is read back as a `std::bitset`.
  - `index_bits_uint64` is an OR of powers of two.
- `std::vector::resize` and the doubling rule that both Worlds apply (module `Containers`).

Modelling choices:
- Component types are the numbers `0 .. N-1` that `index_of` assigns them.
- Component values are a single type `V`, with `blank` standing for `T{}`.
- A `std::bitset<N>` is the set of its one bits.
- A handle is resolved against the pool each time it is used.
- Every `assert` in the source becomes a precondition. The one exception is the older `assign<T>`: its preconditions add the check that the slot is below the count, which the source lacks (see "## Findings").
- A traversal (`each` or a view) returns the sequence of slots it yields. Each traversal is tied to a specification function: `Ecs.Scan`, `LegacyEcs.Matches`.
- The client code of the tests appears as two scenario methods. `Ecs.World.Recycle` is destroy then create. `Ecs.World.RewriteView` writes through a view, then traverses it again.

Where the prose description of the library and the code disagree, the model follows the code:
- The free list is LIFO (`push_front`/`pop_front`), not FIFO.
- `get<T>` hands out a handle without looking at the mask. It does not return an empty handle for a missing component.
- Misuse (a stale id, a component assigned twice) is an `assert`, modelled as a precondition, not an error value.

## Model

| member | source | states |
|---|---|---|
| Containers.Resize | pico_libs/ecs/world.hpp:278-279 | the resized vector has the new length, keeps the old prefix and is padded with the fill value |
| Containers.Grown | pico_libs/ecs/world.hpp:275-280 | below the size the table is untouched; otherwise it becomes `2*count` long; old slots are kept, new ones are the fill value, and a positive count then lies inside the table |
| TypeList.IndexOf | pico_libs/mpl/type_list.hpp:12-19 | defined only when `T` occurs; the result is a position of `T` below `size`, and no earlier position holds `T` (first occurrence) |
| TypeList.TypeAt | pico_libs/mpl/type_list.hpp:33-39 | for `N < size`, the `N`-th argument of the pack |
| TypeList.ContainsIff | pico_libs/mpl/type_list.hpp:54-61 | `contains` holds exactly when `T` is among the arguments (false on the empty pack) |
| TypeList.TypeAtIndexOf | pico_libs/mpl/type_list.hpp:15-37 | `type_at(index_of(T))` is `T` |
| TypeList.IndexOfTypeAt | pico_libs/mpl/type_list.hpp:15-37 | the type at `N` is contained, its first index is at most `N`, and exactly `N` in a pack without repeats |
| TypeList.RenameRoundTrip | pico_libs/mpl/type_list.hpp:44-52 | renaming to another template and back gives the original pack and keeps the size |
| TypeList.RenamePreservesQueries | pico_libs/mpl/type_list.hpp:12-61 | `contains`, `index_of` and `type_at` give the same answers on a renamed pack |
| TypeList.TestTypeList | tests/mpl_test.cpp:17-42 | the indices, types, membership and renaming of `type_list<int, bool, double>` |
| LegacyTypeList.NthTypeAgrees | mpl/include/type_list.hpp:12-27 | `nth_type<N>` is the `N`-th argument and agrees with the newer `type_at` |
| LegacyTypeList.IsInTypeListAgrees | mpl/include/type_list.hpp:42-49 | `is_in_type_list` is membership and agrees with the newer `contains` |
| LegacyTypeList.RenameKeepsArguments | mpl/include/type_list.hpp:29-34 | `rename` keeps the argument sequence and size, is undone by renaming back, and agrees with the newer `rename` |
| Bitset.SetOnesAt | pico_libs/mpl/bitset.hpp:22 | after the fold, a digit is `'1'` exactly when its mirrored index was requested; other positions keep their character |
| Bitset.IndexBitsStrAt | pico_libs/mpl/bitset.hpp:17-23 | the string has length `N+1`, `'\0'` at `N`, `'1'` at `N-1-I` for each requested `I`, `'0'` elsewhere |
| Bitset.IndexBitsStrOrderFree | pico_libs/mpl/bitset.hpp:22 | two index lists with the same set of indices give the same string |
| Bitset.MaskOfIndexBits | pico_libs/ecs/world.hpp:122-125 | read as a `bitset<N>`, the string has bit `i` exactly when `i` was requested; no indices give the empty mask |
| Bitset.MakeValue | pico_libs/mpl/bitset.hpp:17-24 | the array procedure (fill, terminator, one assignment per index) produces the string of `index_bits_str` |
| Bitset.IndexBitsUint64At | pico_libs/mpl/bitset.hpp:8-9 | for indices below 31, bit `b` of the OR of shifted ones is set exactly when `b` was requested |
| Bitset.IndexBitsUint64Below | pico_libs/mpl/bitset.hpp:8-9 | for indices below 31, the OR stays below `2^31`, so the `int` shifts do not overflow |
| Bitset.IndexBitsAgree | pico_libs/mpl/bitset.hpp:8-22 | the integer mask and the string mask hold the same bits |
| Bitset.TestBitList | tests/mpl_test.cpp:45-49 | `index_bits_str<10, 1, 2, 3>` is `"0000001110"` |
| Ecs.ScanSpec | pico_libs/ecs/world.hpp:63-74 | a traversal yields, strictly ascending, exactly the slots below the count that are live and accepted by its predicate |
| Ecs.ScanLiveCount | pico_libs/ecs/world.hpp:177-189 | the unfiltered traversal yields one slot per live slot |
| Ecs.AcceptsMeaning | pico_libs/ecs/world.hpp:101-120 | `DebugPred` accepts everything, `FuzzyPred` is mask inclusion and `ExactPred` is mask equality |
| Ecs.ExactVersusFuzzy | pico_libs/ecs/world.hpp:108-120 | with masks {A}, {A,B}, {A,B,C}, the fuzzy view of {A,B} yields the last two and the exact view only the middle one |
| Ecs.ReuseFront | pico_libs/ecs/world.hpp:138-146 | taking the front of the free list keeps the invariant, adds exactly that (dead) slot to the live set, and makes exactly the new id valid |
| Ecs.AppendSlot | pico_libs/ecs/world.hpp:148-156 | appending slot `entity_count_` hands out version 0 with an empty mask, keeps the invariant and makes exactly the new id valid |
| Ecs.KillSlot | pico_libs/ecs/world.hpp:159-163 | bumping a valid id's slot version keeps the invariant, removes exactly that slot from the live set, puts it on the free list and invalidates exactly that id |
| Ecs.GrowTables | pico_libs/ecs/world.hpp:272-281 | growing both tables to twice the count keeps the invariant and the validity of every id |
| Ecs.SetRecord | pico_libs/ecs/world.hpp:165-175 | giving a used slot a record with the same id and a mask its pools reach keeps the invariant and the validity of every id |
| Ecs.SetPool | pico_libs/ecs/world.hpp:259-270 | replacing a pool by one at least as long keeps the invariant |
| Ecs.World.constructor | pico_libs/ecs/world.hpp:253-257 | both tables start at `kInitSize` default slots, the count at 0, the free list and pools empty |
| Ecs.World.PrepareEntityCreate | pico_libs/ecs/world.hpp:272-281 | both tables follow the doubling rule, stay of equal length, end longer than the count and keep every used slot; no id changes validity |
| Ecs.World.Reuse | pico_libs/ecs/world.hpp:138-146 | pops the front of the free list and hands it out at its current version with a cleared mask; count, versions and pools unchanged; exactly the new id becomes valid |
| Ecs.World.Append | pico_libs/ecs/world.hpp:148-156 | after the doubling rule, hands out slot `entity_count_` at version 0 with an empty mask and raises the count by one; exactly the new id becomes valid |
| Ecs.World.Create | pico_libs/ecs/world.hpp:136-157 | reuse path: the front of the free list at its current version, mask cleared, count unchanged; append path: index = old count at version 0, count + 1; the new id was invalid and is the only one that becomes valid; live count = created - destroyed |
| Ecs.World.Destroy | pico_libs/ecs/world.hpp:159-163 | on a valid id, the slot version goes up by one, the slot goes to the front of the free list, the record and pools are untouched, and exactly that id becomes invalid |
| Ecs.World.PrepareComponentCreate | pico_libs/ecs/world.hpp:259-270 | on a valid id lacking `T`, pool `T` follows the doubling rule and then reaches the id's slot; nothing else changes |
| Ecs.World.Assign | pico_libs/ecs/world.hpp:165-175 | on a valid id lacking `T`: bit `T` set and the others kept, pool `T` holds the value at the slot and no other pool changes, the returned handle reads the value back, validity unchanged |
| Ecs.World.Has | pico_libs/ecs/world.hpp:206-210 | the result is exactly bit `T` of the entity's mask, and when set the component's pool entry exists |
| Ecs.World.GetEntity | pico_libs/ecs/world.hpp:212-215 | the record of a valid id, which carries that same id |
| Ecs.World.Get | pico_libs/ecs/world.hpp:217-221 | a handle for `(id, T)`, made without checking the mask; it dereferences whenever the entity holds `T` |
| Ecs.World.GetPtr | pico_libs/ecs/world.hpp:223-232 | non-null exactly when bit `T` is set, and then the pool entry of the slot |
| Ecs.World.Each | pico_libs/ecs/world.hpp:177-189 | visits, ascending, exactly the live slots below the count, as many as created minus destroyed, each record carrying a valid id of its own slot |
| Ecs.World.Next | pico_libs/ecs/world.hpp:63-74 | the first live, accepted slot at or after `i` and below the count, or the count; every slot skipped is dead or rejected |
| Ecs.World.Traverse | pico_libs/ecs/world.hpp:122-125 | iterating from `begin()` to `end()` with the mask built by `index_bits_str` yields the scan for the requested set |
| Ecs.FullTuple | pico_libs/ecs/world.hpp:44-46 | a slot whose pools reach every bit of its mask yields a full tuple for any requested set inside that mask |
| Ecs.World.Iterate | pico_libs/ecs/world.hpp:41-95 | `begin()` then `++` until `end()` yields the scan of the live, accepted slots below the count, in order |
| Ecs.World.FuzzyView | pico_libs/ecs/world.hpp:191-194 | ascending, exactly the live slots whose mask includes the requested set; each yields a full component tuple |
| Ecs.World.ExactView | pico_libs/ecs/world.hpp:196-199 | ascending, exactly the live slots whose mask equals the requested set; each yields a full component tuple |
| Ecs.World.DebugView | pico_libs/ecs/world.hpp:201-204 | ascending, exactly the live slots, the same sequence `each` visits |
| Ecs.World.WriteThrough | pico_libs/ecs/world.hpp:44-46 | a write through a yielded reference changes that pool entry only; the invariant holds |
| Ecs.World.WriteAll | tests/ecs_test.cpp:163-175 | writing through each of distinct slots puts the value at every one of them; other entries, other pools and all entity state are unchanged |
| Ecs.World.Recycle | pico_libs/ecs/world.hpp:136-163 | destroy followed by create gives the same slot at version + 1 with an empty mask; the free list, count and pools end as they began; exactly the old id loses validity and exactly the new one gains it |
| Ecs.World.RewriteView | tests/ecs_test.cpp:162-189 | the first traversal is the fuzzy scan of the requested set; after writing through each of its references, a second traversal yields the same slots, each holding the written value; other pool entries, other pools and all entity state are unchanged |
| LegacyEcs.MatchesSpec | ecs/include/world.hpp:59-66 | the view yields, ascending, exactly the slots below the count whose mask includes the view mask, live or not |
| LegacyEcs.AssignOutOfRange | ecs/include/world.hpp:172-181 | on a new world the id `{0, 0}` passes every assert of `prepare_component_create`, yet the pool it grows stays empty |
| LegacyEcs.AssignBeyondCount | ecs/include/world.hpp:140-181 | after one `create` and one `assign`, the id `{1, 0}` of an unused slot passes every assert while the pool already reaches slot 1; the write bumps slot 1 to version 1, so the next `create` hands out version 2 |
| LegacyEcs.AssignInRange | ecs/include/world.hpp:172-181 | with the slot-below-count check, the slot lies inside the pool as grown |
| LegacyEcs.World.constructor | ecs/include/world.hpp:122-126 | both tables start at `kInitSize` (200) default slots, the count at 0 |
| LegacyEcs.World.PrepareEntityCreate | ecs/include/world.hpp:184-193 | both tables follow the doubling rule, stay of equal length, end longer than the count and keep used slots |
| LegacyEcs.World.Create | ecs/include/world.hpp:128-138 | always appends at the old count, pre-increments the slot version (so, with the range-checked `assign` of this model, every id is handed out at version 1), sets the record to that id with an empty mask, count + 1; only the new id becomes current |
| LegacyEcs.World.PrepareComponentCreate | ecs/include/world.hpp:170-182 | pool `T` follows the doubling rule and then reaches the id's slot |
| LegacyEcs.World.Assign | ecs/include/world.hpp:140-154 | the slot version goes up by one and the new id is returned to the caller and stored in the record; bit `T` set, others kept; pool `T` holds the value; the new id is current, the old one is not |
| LegacyEcs.World.Each | ecs/include/world.hpp:156-162 | every slot below the count with its record, ascending, with no liveness filter; each record carries its slot's current id |
| LegacyEcs.World.Next | ecs/include/world.hpp:59-66 | the first slot at or after `i` and below the count whose mask includes the view mask, or the count |
| LegacyEcs.World.Iterate | ecs/include/world.hpp:37-87 | `begin()` then `++` until `end()` yields the slots below the count whose mask includes the view mask, in order |
| LegacyEcs.World.View | ecs/include/world.hpp:73-94 | from `begin()` to `end()`: ascending, exactly the used slots whose mask includes the view mask; each yields a full tuple |

## Left out

- `entity_count_` is a static member, shared by every World with the same settings. Each modelled World has its own count.
- Integer widths are not modelled: the model uses `nat` throughout. This covers:
  - `uint64_t` and `uint32_t` versions and counts;
  - the `entity_count_ * 2` overflow asserts;
  - `kInitSize` as a `uint64_t`.
- In the older revision, `entity_count_ * 2` is computed in 32 bits, so the assert at ecs/include/world.hpp:189 compares a wrapped product. Wrap-around is not modelled.
- Bitset.IndexBitsUint64At: stated only for indices below 31. The literal `1` in `1 << I` is an `int`, so larger indices overflow before the OR.
- `index_sequence_v`, which builds the older view's mask (ecs/include/world.hpp:91-93), is not part of this model. `LegacyEcs.World.View` takes the mask as a parameter.
- Ecs.World.Get: follows the code, which does not check the mask; it does not return an empty handle for a missing component.
- Callbacks are left out. `each` returns the visited slots (and, in the older revision, the records) instead of invoking a function.
- Iterator plumbing is left out: `operator==`, post-increment and the tuple-of-references value type. A view is the sequence of slots it yields, and `Components` gives the tuple of values at a slot.
- Component handles (pico_libs/ecs/component.hpp, ecs/include/component.hpp) are reduced to a pool lookup, `Deref`. The older `assign` returns `nullptr`; that return value is not modelled.
- `type_id` (mpl/include/type_list.hpp:36-40) is left out: its values depend on static-initialisation order.
- `settings.hpp`, the `static_assert`s on component membership, and `const`/reference decay of view arguments are left out.
- The `world_` back-pointer of records is left out.
- Generic `V`: all component types share one value type. Per-type value types are not modelled.

- LegacyEcs.World.Assign: takes the range-checked precondition (slot below the count) and does not model the path the asserts at ecs/include/world.hpp:172-181 let through for an unused slot that the pool already reaches. That path writes in range, but it bumps the version and sets the mask of a slot `create` has not handed out yet, breaking the invariant that unused slots are default records at version 0 (`LegacyEcs.AssignBeyondCount` exhibits it).
- LegacyEcs.World.PrepareComponentCreate: takes the same range-checked precondition, for the same reason.

## Findings

| source | as written | input that shows it | evidently intended | confidence | as-written member | corrected member |
|---|---|---|---|---|---|---|
| ecs/include/world.hpp:172-181 | `prepare_component_create` checks the versions and the mask bit but never that `id.id < entity_count_`. It then grows the pool only to `2 * entity_count_` and `assign` writes `pool[id.id]` | a new World and the default id `{0, 0}`: slot 0 is a default record at version 0, so every assert passes; the count is 0, so `resize(0)` leaves the pool empty and `pool[0]` is out of range. When the pool already reaches an unused slot, the write stays in range, but it revives a slot `create` never handed out and makes the next `create` of that slot skip a version (LegacyEcs.AssignBeyondCount) | reject slots at or beyond the count, as the newer revision's `invalidate` does (pico_libs/ecs/world.hpp:236) | not executed | LegacyEcs.AssignOutOfRange | LegacyEcs.AssignInRange |
