/** The growing array of pointers of objectarray.h. */
module ObjectArrays {
  type pointer = nat // 0 is NULL

  /** The sequence without the first occurrence of x. */
  function WithoutFirst(s: seq<pointer>, x: pointer): (r: seq<pointer>)
  {
    if s == [] then [] else if s[0] == x then s[1..] else [s[0]] + WithoutFirst(s[1..], x)
  }

  lemma {:induction false} WithoutFirstAt(s: seq<pointer>, x: pointer, i: nat)
    requires i < |s| && s[i] == x && x !in s[..i]
    ensures WithoutFirst(s, x) == s[..i] + s[i + 1..]
  {
    if i > 0 {
      assert s[0] in s[..i];
      assert s[1..][..i - 1] == s[..i][1..];
      WithoutFirstAt(s[1..], x, i - 1);
      assert s[..i] == [s[0]] + s[1..][..i - 1];
    }
  }

  lemma {:induction false} WithoutAbsent(s: seq<pointer>, x: pointer)
    requires x !in s
    ensures WithoutFirst(s, x) == s
  {
    if s != [] {
      WithoutAbsent(s[1..], x);
    }
  }

  /** One occurrence of x goes, and nothing else. */
  lemma {:induction false} WithoutFirstCounts(s: seq<pointer>, x: pointer)
    ensures multiset(WithoutFirst(s, x)) == multiset(s) - multiset{x}
  {
    if s != [] {
      assert s == [s[0]] + s[1..];
      WithoutFirstCounts(s[1..], x);
    }
  }

  function Min(a: nat, b: nat): (m: nat)
    ensures m <= a && m <= b
  {
    if a <= b then a else b
  }

  class ObjectArray {
    var elements: array<pointer>
    const minSize: nat
    var size: nat

    ghost predicate Valid()
      reads this, elements
    {
      size <= elements.Length && 0 !in elements[..size]
    }

    ghost function Contents(): seq<pointer>
      requires Valid()
      reads this, elements
    {
      elements[..size]
    }

    constructor (capacity: nat)
      ensures Valid() && Contents() == [] && fresh(elements) && minSize == capacity == elements.Length
    {
      elements := new pointer[capacity];
      minSize, size := capacity, 0;
    }

    /** size(int): change the capacity, keeping what fits. */
    method Resize(newSize: nat)
      requires Valid()
      modifies this
      ensures Valid() && elements.Length == newSize && (elements == old(elements) || fresh(elements))
      ensures Contents() == old(Contents())[..Min(newSize, old(size))]
    {
      if newSize != elements.Length {
        var newElements := new pointer[newSize];
        var n := Min(newSize, elements.Length);
        for i := 0 to n
          invariant elements == old(elements) && size == old(size) && newElements[..i] == elements[..i]
        {
          newElements[i] := elements[i];
        }
        elements := newElements;
        size := Min(size, newSize);
      }
    }

    /** Append a pointer that is not NULL. */
    method Put(item: pointer) returns (count: nat)
      requires Valid()
      modifies this, elements
      ensures Valid() && (elements == old(elements) || fresh(elements)) && count == |Contents()|
      ensures Contents() == if item == 0 then old(Contents()) else old(Contents()) + [item]
    {
      if item != 0 {
        if size >= elements.Length {
          Resize(if elements.Length != 0 then elements.Length * 2 else 2);
        }
        elements[size] := item;
        size := size + 1;
        assert elements[..size] == old(Contents()) + [item];
      }
      count := size;
    }

    method Remove(index: nat) returns (obj: pointer)
      requires Valid() && index < |Contents()|
      modifies this, elements
      ensures Valid() && elements == old(elements) && obj == old(Contents())[index]
      ensures Contents() == old(Contents())[..index] + old(Contents())[index + 1..]
    {
      obj := elements[index];
      for i := index to size - 1
        invariant size == old(size) && elements == old(elements)
        invariant elements[..index] == old(elements[..index])
        invariant forall j :: index <= j < i ==> elements[j] == old(elements[j + 1])
        invariant forall j :: i <= j < elements.Length ==> elements[j] == old(elements[j])
      {
        elements[i] := elements[i + 1];
      }
      size := size - 1;
      assert forall j :: index <= j < size ==> elements[..size][j] == old(elements[..size])[j + 1];
      assert elements[..size] == old(elements[..size])[..index] + old(elements[..size])[index + 1..];
    }

    method RemoveObject(item: pointer)
      requires Valid()
      modifies this, elements
      ensures Valid() && elements == old(elements) && Contents() == WithoutFirst(old(Contents()), item)
    {
      for i := 0 to size
        invariant Valid() && size == old(size) && elements == old(elements) && elements[..] == old(elements[..])
        invariant item !in elements[..i]
      {
        if elements[i] == item {
          WithoutFirstAt(Contents(), item, i);
          var obj := Remove(i);
          return;
        }
      }
      WithoutAbsent(Contents(), item);
    }

    /** Remove and return the last pointer, NULL if there is none. */
    method Last() returns (obj: pointer)
      requires Valid()
      modifies `size
      ensures Valid() && obj == (if old(Contents()) == [] then 0 else old(Contents())[old(size) - 1])
      ensures Contents() == if old(Contents()) == [] then [] else old(Contents())[..old(size) - 1]
    {
      obj := 0;
      if size > 0 {
        size := size - 1;
        obj := elements[size];
        assert elements[..size] == old(Contents())[..size];
      }
    }

    method GetIndex(item: pointer) returns (result: int)
      requires Valid()
      ensures item in Contents() ==> (0 <= result < |Contents()| && Contents()[result] == item
        && item !in Contents()[..result])
      ensures item !in Contents() ==> result == -1
    {
      result := -1;
      for i := 0 to size
        invariant item !in elements[..i] && result == -1
      {
        if elements[i] == item {
          assert elements[..size][..i] == elements[..i];
          return i;
        }
      }
    }

    method Clear()
      requires Valid()
      modifies this
      ensures Valid() && Contents() == [] && (elements == old(elements) || fresh(elements))
        && elements.Length == minSize
    {
      Resize(minSize);
      size := 0;
    }
  }
}
