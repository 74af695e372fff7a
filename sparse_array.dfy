// shared/ecs/SparseArray.hpp: a growable vector of optional component slots.
// The vector `_data` is the field `data`; every operation reassigns it.
module SparseArrays {
  import opened Common

  /** `s` after `resize(n)` when n exceeds its size; a resize never shrinks here. */
  function Grown<C>(s: seq<Option<C>>, n: nat): (r: seq<Option<C>>)
    ensures |r| == if n > |s| then n else |s|
    ensures forall i :: 0 <= i < |s| ==> r[i] == s[i]
    ensures forall i :: |s| <= i < |r| ==> r[i] == None
  {
    if n <= |s| then s else s + seq(n - |s|, _ => None)
  }

  /** `s` after `insert_at(idx, c)`. */
  function Inserted<C>(s: seq<Option<C>>, idx: nat, c: C): (r: seq<Option<C>>)
    ensures |r| == if idx < |s| then |s| else idx + 1
    ensures r[idx] == Some(c)
    ensures forall i :: 0 <= i < |s| && i != idx ==> r[i] == s[i]
    ensures forall i :: |s| <= i < |r| && i != idx ==> r[i] == None
  {
    Grown(s, idx + 1)[idx := Some(c)]
  }

  /** `s` after `erase(e)`: only an existing slot is reset. */
  function Erased<C>(s: seq<Option<C>>, e: nat): (r: seq<Option<C>>)
    ensures |r| == |s|
    ensures forall i | 0 <= i < |s| :: r[i] == if i == e then None else s[i]
  {
    if e < |s| then s[e := None] else s
  }

  /** Erase empties slot e when it exists, keeps every other slot, and never resizes. */
  lemma EraseSpec<C>(s: seq<Option<C>>, e: nat)
    ensures |Erased(s, e)| == |s|
    ensures e < |s| ==> Erased(s, e)[e] == None
    ensures forall i :: 0 <= i < |s| && i != e ==> Erased(s, e)[i] == s[i]
    ensures e >= |s| ==> Erased(s, e) == s
  {
  }

  /** Erasing a slot that is already empty, or out of range, changes nothing; so erase is idempotent. */
  lemma EraseIdempotent<C>(s: seq<Option<C>>, e: nat)
    ensures (e >= |s| || s[e] == None) ==> Erased(s, e) == s
    ensures Erased(Erased(s, e), e) == Erased(s, e)
  {
    if e < |s| && s[e] == None {
      assert Erased(s, e) == s[e := None];
      assert s[e := None] == s;
    }
  }

  /** No operation of the array makes it shorter. */
  lemma NeverShrinks<C>(s: seq<Option<C>>, idx: nat, c: C)
    ensures |Grown(s, idx + 1)| >= |s| && |Inserted(s, idx, c)| >= |s| && |Erased(s, idx)| == |s|
  {
  }

  class SparseArray<C> {
    var data: seq<Option<C>>

    constructor ()
      ensures data == []
    {
      data := [];
    }

    /** The non-const `operator[]`: grows the vector to `idx + 1` when needed and yields slot `idx`. */
    method Index(idx: nat) returns (slot: Option<C>)
      modifies this
      ensures data == Grown(old(data), idx + 1)
      ensures |data| > idx && slot == data[idx]
    {
      if idx >= |data| {
        data := data + seq(idx + 1 - |data|, _ => None);
      }
      slot := data[idx];
    }

    /** `insert_at`: grows when needed, then stores `component` in slot `idx`. */
    method InsertAt(idx: nat, component: C)
      modifies this
      ensures data == Inserted(old(data), idx, component)
    {
      if idx >= |data| {
        data := data + seq(idx + 1 - |data|, _ => None);
      }
      data := data[idx := Some(component)];
    }

    /** `erase`: resets slot `entity` when it exists. */
    method Erase(entity: nat)
      modifies this
      ensures data == Erased(old(data), entity)
    {
      if entity < |data| {
        data := data[entity := None];
      }
    }

    /** The const `operator[]`: its bounds check is commented out, so the index must be in range. */
    method Get(idx: nat) returns (slot: Option<C>)
      requires idx < |data|
      ensures slot == data[idx]
    {
      slot := data[idx];
    }

    /** `getData`: the whole slot vector. */
    method GetData() returns (d: seq<Option<C>>)
      ensures d == data
    {
      d := data;
    }
  }
}
