/** `sf::static_vector<T, Alloc>` (semifunctional/container/static_vector.hpp): a fixed array
    of `Alloc` optional slots plus a current size.  The slots below the size hold values and
    the others are empty; the iteration range `begin() .. end()` covers the filled slots. */
module StaticVector {
  import opened Wrappers

  datatype StaticVector<T> = StaticVector(elements: seq<Option<T>>, size: nat)
  {
    /** The capacity `Alloc`. */
    function Alloc(): nat { |elements| }
  }

  /** Slots `[0, size)` are filled and the rest are empty. */
  ghost predicate Valid<T>(v: StaticVector<T>)
  {
    && v.size <= |v.elements|
    && forall i :: 0 <= i < |v.elements| ==> (v.elements[i].Some? <==> i < v.size)
  }

  /** The values in the range `begin() .. end()`, in slot order. */
  function Contents<T>(v: StaticVector<T>): (r: seq<T>)
    requires Valid(v)
    ensures |r| == v.size
    ensures forall i :: 0 <= i < v.size ==> v.elements[i] == Some(r[i])
  {
    seq(v.size, i requires 0 <= i < v.size && Valid(v) => v.elements[i].value)
  }

  /** The default-constructed vector: `Alloc` empty slots and size 0. */
  function Empty<T>(alloc: nat): (r: StaticVector<T>)
    ensures Valid(r) && r.Alloc() == alloc && Contents(r) == []
  {
    StaticVector(seq(alloc, _ => None), 0)
  }

  /** `push_back`: stores the value in the first empty slot and returns it.  Writing past the
      last slot is an out-of-bounds `std::array` access, so a full vector is excluded. */
  function PushBack<T>(v: StaticVector<T>, x: T): (r: (StaticVector<T>, T))
    requires Valid(v) && v.size < v.Alloc()
    ensures Valid(r.0) && r.0.Alloc() == v.Alloc()
    ensures Contents(r.0) == Contents(v) + [x]
    ensures r.1 == x
  {
    var w := StaticVector(v.elements[v.size := Some(x)], v.size + 1);
    assert Contents(w) == Contents(v) + [x] by {
      forall i | 0 <= i < w.size ensures Contents(w)[i] == (Contents(v) + [x])[i] {
        assert w.elements[i] == Some(Contents(w)[i]);
      }
    }
    (w, w.elements[v.size].value)
  }

  /** `pop_back`: empties the last filled slot.  On an empty vector the decrement of the
      unsigned size wraps and the array access is out of bounds, so that case is excluded. */
  function PopBack<T>(v: StaticVector<T>): (r: StaticVector<T>)
    requires Valid(v) && v.size > 0
    ensures Valid(r) && r.Alloc() == v.Alloc()
    ensures Contents(r) == Contents(v)[..v.size - 1]
  {
    var w := StaticVector(v.elements[v.size - 1 := None], v.size - 1);
    assert Contents(w) == Contents(v)[..v.size - 1] by {
      forall i | 0 <= i < w.size ensures Contents(w)[i] == Contents(v)[i] {
        assert w.elements[i] == Some(Contents(w)[i]);
        assert v.elements[i] == Some(Contents(v)[i]);
      }
    }
    w
  }

  /** `size()`. */
  function Size<T>(v: StaticVector<T>): (r: nat)
    requires Valid(v)
    ensures r == |Contents(v)|
  {
    v.size
  }

  /** `empty()`: true exactly when there is nothing in the range. */
  function IsEmpty<T>(v: StaticVector<T>): (r: bool)
    requires Valid(v)
    ensures r <==> Contents(v) == []
  {
    v.size == 0
  }

  /** `full()`: true exactly when every slot is filled, so a further `push_back` would not fit. */
  function IsFull<T>(v: StaticVector<T>): (r: bool)
    requires Valid(v)
    ensures r <==> |Contents(v)| == v.Alloc()
    ensures r <==> forall i :: 0 <= i < v.Alloc() ==> v.elements[i].Some?
  {
    assert v.size < v.Alloc() ==> v.elements[v.size].None?;
    v.size == v.Alloc()
  }

  /** `operator[]`: the value in a filled slot.  An index past the array does not compile and
      an empty slot falls off the end of the function, so the index must be below the size. */
  function At<T>(v: StaticVector<T>, index: nat): (r: T)
    requires Valid(v) && index < v.size
    ensures r == Contents(v)[index]
  {
    v.elements[index].value
  }

  /** The variadic constructor: the elements pushed back one after another, left to right. */
  function FromSeq<T>(alloc: nat, xs: seq<T>): (r: StaticVector<T>)
    requires |xs| <= alloc
    ensures Valid(r) && r.Alloc() == alloc
    ensures Contents(r) == xs
  {
    if xs == [] then Empty(alloc)
    else PushBack(FromSeq(alloc, xs[..|xs| - 1]), xs[|xs| - 1]).0
  }

  /** An assignment through the reference `push_back` or `operator[]` hands out: one filled
      slot gets a new value and nothing else changes. */
  function Assign<T>(v: StaticVector<T>, index: nat, x: T): (r: StaticVector<T>)
    requires Valid(v) && index < v.size
    ensures Valid(r) && r.Alloc() == v.Alloc()
    ensures Contents(r) == Contents(v)[index := x]
  {
    var w := StaticVector(v.elements[index := Some(x)], v.size);
    assert Contents(w) == Contents(v)[index := x] by {
      forall i | 0 <= i < w.size ensures Contents(w)[i] == Contents(v)[index := x][i] {
        assert w.elements[i] == Some(Contents(w)[i]);
        assert v.elements[i] == Some(Contents(v)[i]);
      }
    }
    w
  }

  /** `pop_back` undoes `push_back`. */
  lemma {:induction false} PopBackAfterPushBack<T>(v: StaticVector<T>, x: T)
    requires Valid(v) && v.size < v.Alloc()
    ensures PopBack(PushBack(v, x).0) == v
  {
    var w := PopBack(PushBack(v, x).0);
    assert w.elements == v.elements by {
      forall i | 0 <= i < |v.elements| ensures w.elements[i] == v.elements[i] {
        if i == v.size {
          assert v.elements[i].None?;
        }
      }
    }
  }

  /** `push_back` of the last value undoes `pop_back`. */
  lemma {:induction false} PushBackAfterPopBack<T>(v: StaticVector<T>)
    requires Valid(v) && v.size > 0
    ensures PushBack(PopBack(v), Contents(v)[v.size - 1]).0 == v
  {
    var w := PushBack(PopBack(v), Contents(v)[v.size - 1]).0;
    assert w.elements == v.elements by {
      forall i | 0 <= i < |v.elements| ensures w.elements[i] == v.elements[i] {
        if i == v.size - 1 {
          assert v.elements[i] == Some(Contents(v)[i]);
        }
      }
    }
  }

  /** A valid vector is determined by its capacity and its contents. */
  lemma ContentsDetermine<T>(v: StaticVector<T>, w: StaticVector<T>)
    requires Valid(v) && Valid(w) && v.Alloc() == w.Alloc() && Contents(v) == Contents(w)
    ensures v == w
  {
    assert v.elements == w.elements by {
      forall i | 0 <= i < |v.elements| ensures v.elements[i] == w.elements[i] {
        if i < v.size {
          assert v.elements[i] == Some(Contents(v)[i]) && w.elements[i] == Some(Contents(w)[i]);
        }
      }
    }
  }
}
