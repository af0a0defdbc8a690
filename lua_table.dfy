/**
 A Lua table used as a 1-based array (package.loaders), and the loader's
 `prepend`, which moves every entry up one slot, walking down from the top,
 and then stores the new value in slot 1.
 */
module LuaTable {

  /** The keys are exactly 1..n */
  ghost predicate KeysUpTo(keys: set<int>, n: int) {
    forall k :: k in keys <==> 1 <= k <= n
  }

  /**
   lua_rawseti on a table holding slots 1..n: storing into one of them keeps
   the key range, storing into n + 1 extends it by one.
   */
  lemma Store<V>(m: map<int, V>, n: nat, j: int, x: V)
    requires KeysUpTo(m.Keys, n) && |m| == n
    requires 1 <= j <= n + 1
    ensures j <= n ==> KeysUpTo(m[j := x].Keys, n) && |m[j := x]| == n
    ensures j == n + 1 ==> KeysUpTo(m[j := x].Keys, n + 1) && |m[j := x]| == n + 1
  {
    var stored := m[j := x];
    var top := if j == n + 1 then n + 1 else n;
    forall k ensures k in stored.Keys <==> 1 <= k <= top {
      assert k in stored.Keys <==> k == j || k in m.Keys;
    }
    assert j in m.Keys <==> j <= n;
  }

  /** The values in slots 1..n of a table holding all of them, in order */
  function Slots<V>(entries: map<int, V>, n: nat): (s: seq<V>)
    requires forall k :: 1 <= k <= n ==> k in entries
    ensures |s| == n
    ensures forall i :: 0 <= i < n ==> s[i] == entries[i + 1]
  {
    if n == 0 then [] else Slots(entries, n - 1) + [entries[n]]
  }

  class Table<V> {
    var entries: map<int, V>

    /** A proper sequence: its keys are exactly 1..n, with n its number of entries */
    ghost predicate Valid()
      reads this
    {
      KeysUpTo(entries.Keys, |entries|)
    }

    /** The table's values, slot 1 first */
    ghost function Elements(): seq<V>
      reads this
      requires Valid()
    {
      Slots(entries, |entries|)
    }

    /** lua_objlen: a border, a slot that holds a value (or 0) followed by an empty one */
    function ObjLen(): (n: nat)
      reads this
      requires Valid()
      ensures n == 0 || n in entries
      ensures n + 1 !in entries
      ensures n == |Elements()|
    {
      |entries|
    }

    /**
     Insert v at slot 1: each slot k of 1..n moves to k + 1, taken from the
     top down, so that a slot is read before it is overwritten.
     */
    method Prepend(v: V)
      requires Valid()
      modifies this
      ensures Valid()
      ensures |entries| == old(|entries|) + 1
      ensures entries[1] == v
      ensures forall k {:trigger entries[k]} :: 2 <= k <= old(|entries|) + 1 ==> entries[k] == old(entries[k - 1])
      ensures Elements() == [v] + old(Elements())
    {
      var length := ObjLen();
      ghost var before := entries;
      var i := length;
      while i > 0
        invariant 0 <= i <= length
        invariant var top := if i < length then length + 1 else length;
          KeysUpTo(entries.Keys, top) && |entries| == top
        // slots 1..i+1 have not been written yet
        invariant forall k {:trigger entries[k]} :: 1 <= k <= i + 1 && k <= length ==> entries[k] == before[k]
        // slots above i+1 hold their lower neighbour's old value
        invariant forall k {:trigger entries[k]} :: i + 1 < k <= length + 1 ==> entries[k] == before[k - 1]
      {
        assert entries[i] == before[i];  // lua_rawgeti reads a slot nothing has overwritten yet
        Store(entries, if i < length then length + 1 else length, i + 1, entries[i]);
        entries := entries[i + 1 := entries[i]];  // lua_rawseti
        i := i - 1;
      }
      Store(entries, if 0 < length then length + 1 else 0, 1, v);
      entries := entries[1 := v];
      SlotsShifted(before, entries, length, v);
    }
  }

  /** A table whose slots 2..n+1 hold another's slots 1..n, behind v in slot 1 */
  lemma SlotsShifted<V>(before: map<int, V>, after: map<int, V>, n: nat, v: V)
    requires forall k :: 1 <= k <= n ==> k in before
    requires forall k :: 1 <= k <= n + 1 ==> k in after
    requires after[1] == v
    requires forall k {:trigger after[k]} :: 2 <= k <= n + 1 ==> after[k] == before[k - 1]
    ensures Slots(after, n + 1) == [v] + Slots(before, n)
  {
    var s, t := Slots(after, n + 1), [v] + Slots(before, n);
    forall i | 0 <= i < n + 1 ensures s[i] == t[i] {
      if i > 0 {
        assert s[i] == after[i + 1] == before[i];
      }
    }
  }
}
