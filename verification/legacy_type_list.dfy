/**
 * The type-list metafunctions of the older revision, mpl/include/type_list.hpp:
 * `nth_type`, `is_in_type_list` and `rename`, defined by their own recursion and
 * shown to agree with the newer `type_at`, `contains` and `rename`. Packs are
 * the values of the newer module.
 */
module LegacyTypeList {
  import TL = TypeList

  /** `type_list<Args...>::size` (a `uint32_t` in this revision). */
  function Size<T>(p: TL.Pack<T>): nat
  {
    |p.args|
  }

  /**
   * `nth_type<N, T<Head, Rest...>>`: the head for 0, else `nth_type<N - 1>` of
   * the rest; `N` past the end is a compile error.
   */
  function NthType<T>(n: nat, p: TL.Pack<T>): T
    requires n < Size(p)
    decreases n
  {
    if n == 0 then p.args[0] else NthType(n - 1, TL.Pack(p.template, p.args[1..]))
  }

  /**
   * `is_in_type_list<T, TList>`: false by default (so for the empty pack), true
   * when the head is `T`, else the answer for the rest.
   */
  predicate IsInTypeList<T(==)>(t: T, p: TL.Pack<T>)
    decreases |p.args|
  {
    if p.args == [] then false
    else if p.args[0] == t then true
    else IsInTypeList(t, TL.Pack(p.template, p.args[1..]))
  }

  /** `rename<U, T<Args...>>::type` is `U<Args...>`. */
  function Rename<T>(u: TL.Template, p: TL.Pack<T>): TL.Pack<T>
  {
    TL.Pack(u, p.args)
  }

  /** `nth_type` picks the `n`-th argument, as the newer `type_at` does. */
  lemma {:induction false} NthTypeAgrees<T>(n: nat, p: TL.Pack<T>)
    requires n < Size(p)
    ensures NthType(n, p) == p.args[n] == TL.TypeAt(n, p)
    decreases n
  {
    if n > 0 {
      NthTypeAgrees(n - 1, TL.Pack(p.template, p.args[1..]));
    }
  }

  /** `is_in_type_list` is membership, as the newer `contains` is. */
  lemma {:induction false} IsInTypeListAgrees<T>(t: T, p: TL.Pack<T>)
    ensures IsInTypeList(t, p) <==> t in p.args
    ensures IsInTypeList(t, p) == TL.Contains(t, p)
    decreases |p.args|
  {
    TL.ContainsIff(t, p);
    if p.args != [] {
      IsInTypeListAgrees(t, TL.Pack(p.template, p.args[1..]));
      assert p.args == [p.args[0]] + p.args[1..];
    }
  }

  /** Renaming keeps the arguments and their order, and is undone by renaming back. */
  lemma RenameKeepsArguments<T>(u: TL.Template, p: TL.Pack<T>)
    ensures Rename(u, p).args == p.args && Size(Rename(u, p)) == Size(p)
    ensures Rename(p.template, Rename(u, p)) == p
    ensures Rename(u, p) == TL.Rename(u, p)
  {
  }
}
