/**
 * A vector with a bounded capacity, backed by storage its user supplies:
 * the first `len` slots of `storage` hold the elements, in push order.
 * Pushing onto a full vector fails instead of growing it.
 */
module StackVector {
  import opened Results

  class StackVec<T> {
    /** The user-supplied backing storage; its length is the capacity. */
    const storage: array<T>
    /** How many leading slots of `storage` are in use. */
    var len: nat

    ghost predicate Valid()
      reads this
    {
      len <= storage.Length
    }

    /** The elements of the vector, oldest first. */
    ghost function Contents(): seq<T>
      reads this, storage
      requires Valid()
    {
      storage[..len]
    }

    /** `new`: an empty vector over `storage`. */
    constructor New(storage: array<T>)
      ensures Valid() && this.storage == storage && len == 0
      ensures Contents() == []
    {
      this.storage := storage;
      len := 0;
    }

    /** `with_len`: the first `len` slots of `storage` count as already pushed. */
    constructor WithLen(storage: array<T>, len: nat)
      requires len <= storage.Length
      ensures Valid() && this.storage == storage && this.len == len
      ensures Contents() == storage[..len]
    {
      this.storage := storage;
      this.len := len;
    }

    /** The number of elements the vector can hold: the storage length. */
    function Capacity(): (c: nat)
      ensures c == storage.Length
    {
      storage.Length
    }

    function Len(): (n: nat)
      reads this
      requires Valid()
      ensures n == |Contents()| && n <= Capacity()
    {
      len
    }

    predicate IsEmpty()
      reads this
      requires Valid()
      ensures IsEmpty() <==> Contents() == []
    {
      len == 0
    }

    predicate IsFull()
      reads this
      requires Valid()
      ensures IsFull() <==> |Contents()| == Capacity()
    {
      len == storage.Length
    }

    /** `truncate`: keeps the first `n` elements; a larger `n` has no effect. */
    method Truncate(n: nat)
      requires Valid()
      modifies this
      ensures Valid() && len == if n < old(len) then n else old(len)
      ensures Contents() == old(Contents())[..len]
    {
      if n < len {
        len := n;
      }
    }

    /**
     * `as_slice`: the whole backing storage, including the slots past
     * `len`, not just the elements pushed.
     */
    function AsSlice(): (s: seq<T>)
      reads this, storage
      requires Valid()
      ensures |s| == Capacity() && s[..len] == Contents()
      ensures s == storage[..]
    {
      storage[..]
    }

    /** `into_slice`: hands back the whole backing storage. */
    method IntoSlice() returns (s: array<T>)
      requires Valid()
      ensures s == storage && s.Length == Capacity()
      ensures s[..len] == Contents()
    {
      s := storage;
    }

    /**
     * `push`: on a full vector reports `Err(())` and changes nothing;
     * otherwise writes `x` to slot `len`, leaves every other slot alone and
     * grows the vector by one.
     */
    method Push(x: T) returns (r: Result<(), ()>)
      requires Valid()
      modifies this, storage
      ensures Valid()
      ensures r.Err? <==> old(len) == storage.Length
      ensures r.Err? ==> len == old(len) && storage[..] == old(storage[..])
      ensures r.Ok? ==> len == old(len) + 1 && storage[..] == old(storage[..])[old(len) := x]
      ensures Contents() == if r.Ok? then old(Contents()) + [x] else old(Contents())
    {
      if IsFull() {
        r := Err(());
      } else {
        storage[len] := x;
        len := len + 1;
        r := Ok(());
        assert Contents() == old(Contents()) + [x];
      }
    }

    /**
     * `pop`: on an empty vector reports `None`; otherwise shrinks the vector
     * by one and returns the element that was last, leaving storage alone.
     */
    method Pop() returns (r: Option<T>)
      requires Valid()
      modifies this
      ensures Valid()
      ensures r.None? <==> old(len) == 0
      ensures r.None? ==> len == 0
      ensures r.Some? ==> len == old(len) - 1 && r.value == storage[len] && r.value == old(Contents())[len]
      ensures Contents() == if r.Some? then old(Contents())[..len] else old(Contents())
    {
      if IsEmpty() {
        r := None;
      } else {
        len := len - 1;
        r := Some(storage[len]);
      }
    }
  }

  /** Pushing onto a vector that is not full and then popping gives back the element and the old length. */
  method PushThenPop<T>(v: StackVec<T>, x: T) returns (y: Option<T>)
    requires v.Valid() && !v.IsFull()
    modifies v, v.storage
    ensures y == Some(x) && v.Valid() && v.len == old(v.len)
    ensures v.Contents() == old(v.Contents())
  {
    var pushed := v.Push(x);
    y := v.Pop();
  }
}
