/**
 * The type-list metafunctions of pico_libs/mpl/type_list.hpp. A C++ pack
 * `TList<Args...>` is a value: the class template that wraps it and the
 * sequence of its arguments. The partial specialisations that match on the
 * head of the pack become recursion on the argument sequence; a metafunction
 * that fails to instantiate becomes a precondition.
 */
module TypeList {

  /** The name of a variadic class template (`type_list`, `std::tuple`, ...). */
  type Template = string

  const TypeListTemplate: Template := "type_list"
  const TupleTemplate: Template := "tuple"

  /** `TList<Args...>`: a variadic template applied to a list of types. */
  datatype Pack<T> = Pack(template: Template, args: seq<T>)

  /** `TList<Tail...>` for `TList<Head, Tail...>`. */
  function Tail<T>(p: Pack<T>): Pack<T>
    requires p.args != []
  {
    Pack(p.template, p.args[1..])
  }

  /** `type_list<Args...>::size`, i.e. `sizeof...(Args)`. */
  function Size<T>(p: Pack<T>): nat
  {
    |p.args|
  }

  /**
   * `contains<T, TList>`: false for the primary template (the empty pack among
   * others), true when the head is `T`, otherwise the answer for the tail.
   */
  predicate Contains<T(==)>(t: T, p: Pack<T>)
    decreases |p.args|
  {
    p.args != [] && (p.args[0] == t || Contains(t, Tail(p)))
  }

  /**
   * `index_of<T, TList>`: 0 when the head is `T`, else one more than the index
   * in the tail. The primary template has no value, so `T` must occur.
   */
  function IndexOf<T(==)>(t: T, p: Pack<T>): (r: nat)
    requires Contains(t, p)
    ensures r < Size(p) && p.args[r] == t
    ensures forall j :: 0 <= j < r ==> p.args[j] != t
    decreases |p.args|
  {
    if p.args[0] == t then 0 else IndexOf(t, Tail(p)) + 1
  }

  /**
   * `type_at<N, TList>`: the head for 0, else `type_at<N - 1>` of the tail;
   * the static_assert makes an out-of-bound `N` a compile error.
   */
  function TypeAt<T>(n: nat, p: Pack<T>): (r: T)
    requires n < Size(p)
    ensures r == p.args[n]
    decreases n
  {
    if n == 0 then p.args[0] else TypeAt(n - 1, Tail(p))
  }

  /** `rename<U, TList<Args...>>` is `U<Args...>`. */
  function Rename<T>(u: Template, p: Pack<T>): Pack<T>
  {
    Pack(u, p.args)
  }

  /** `contains` holds exactly when `T` is one of the arguments. */
  lemma {:induction false} ContainsIff<T>(t: T, p: Pack<T>)
    ensures Contains(t, p) <==> t in p.args
    decreases |p.args|
  {
    if p.args != [] {
      ContainsIff(t, Tail(p));
      assert p.args == [p.args[0]] + Tail(p).args;
    }
  }

  /** `type_at` undoes `index_of`. */
  lemma TypeAtIndexOf<T>(t: T, p: Pack<T>)
    requires Contains(t, p)
    ensures TypeAt(IndexOf(t, p), p) == t
  {
  }

  /**
   * `index_of` undoes `type_at` up to repetition: the element at `n` is in the
   * pack and its first occurrence is at or before `n`, exactly at `n` when the
   * pack has no repeated type (as a component list has none).
   */
  lemma {:induction false} IndexOfTypeAt<T>(n: nat, p: Pack<T>)
    requires n < Size(p)
    ensures Contains(TypeAt(n, p), p)
    ensures IndexOf(TypeAt(n, p), p) <= n
    ensures (forall i, j :: 0 <= i < j < |p.args| ==> p.args[i] != p.args[j]) ==> IndexOf(TypeAt(n, p), p) == n
  {
    ContainsIff(TypeAt(n, p), p);
  }

  /** Renaming to a tuple and back gives the original pack. */
  lemma RenameRoundTrip<T>(u: Template, p: Pack<T>)
    ensures Rename(p.template, Rename(u, p)) == p
    ensures Size(Rename(u, p)) == Size(p)
  {
  }

  /**
   * The queries ignore the wrapping template: `index_of`, `type_at` and
   * `contains` answer alike for `type_list<int, bool, double>` and
   * `std::tuple<int, bool, double>`.
   */
  lemma {:induction false} RenamePreservesQueries<T>(u: Template, p: Pack<T>, t: T)
    ensures Contains(t, Rename(u, p)) == Contains(t, p)
    ensures Contains(t, p) ==> IndexOf(t, Rename(u, p)) == IndexOf(t, p)
    ensures forall n :: 0 <= n < Size(p) ==> TypeAt(n, Rename(u, p)) == TypeAt(n, p)
    decreases |p.args|
  {
    if p.args != [] {
      RenamePreservesQueries(u, Tail(p), t);
      assert Tail(Rename(u, p)) == Rename(u, Tail(p));
    }
  }

  /** The fixed list of the library's tests: `type_list<int, bool, double>`. */
  lemma TestTypeList()
    ensures var l := Pack(TypeListTemplate, ["int", "bool", "double"]);
      && IndexOf("int", l) == 0 && IndexOf("bool", l) == 1 && IndexOf("double", l) == 2
      && TypeAt(0, l) == "int" && TypeAt(1, l) == "bool" && TypeAt(2, l) == "double"
      && Contains("double", l) && !Contains("float", l)
      && Rename(TupleTemplate, l) == Pack(TupleTemplate, ["int", "bool", "double"])
  {
    var l := Pack(TypeListTemplate, ["int", "bool", "double"]);
    assert Tail(l).args == ["bool", "double"];
    assert Tail(Tail(l)).args == ["double"];
    assert Tail(Tail(Tail(l))).args == [];
  }
}
