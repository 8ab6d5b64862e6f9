/** The pages of the index: fixed arrays of element and pointer slots, and the array helpers they are kept with. */
module IndexPages {
  import opened Ids
  import opened BTree
  import opened BTreeProofs

  // ---- Array helpers -------------------------------------------------------------------------------

  /** One slot opened at startPoint: the last of the first `size` slots falls off. */
  function OpenedAt<T>(s: seq<T>, startPoint: nat, size: nat, nil: T): (r: seq<T>)
    requires size <= |s|
    ensures |r| == |s|
  {
    if startPoint + 1 < size then s[..startPoint] + [nil] + s[startPoint..size - 1] + s[size..] else s
  }

  /** The slot at startPoint closed: an empty one comes in at the end of the first `size`. */
  function ClosedAt<T>(s: seq<T>, startPoint: nat, size: nat, nil: T): (r: seq<T>)
    requires size <= |s|
    ensures |r| == |s|
  {
    if startPoint + 1 < size then s[..startPoint] + s[startPoint + 1..size] + [nil] + s[size..] else s
  }

  function ShiftedRight<T>(s: seq<T>, startPoint: nat, count: nat, size: nat, nil: T): (r: seq<T>)
    requires size <= |s|
    ensures |r| == |s|
  {
    if count == 0 then s else OpenedAt(ShiftedRight(s, startPoint, count - 1, size, nil), startPoint, size, nil)
  }

  function ShiftedLeft<T>(s: seq<T>, startPoint: nat, count: nat, size: nat, nil: T): (r: seq<T>)
    requires size <= |s|
    ensures |r| == |s|
  {
    if count == 0 then s else ClosedAt(ShiftedLeft(s, startPoint, count - 1, size, nil), startPoint, size, nil)
  }

  method ShiftRightOnce<T>(a: array<T>, startPoint: nat, size: nat, nil: T)
    requires size <= a.Length
    modifies a
    ensures a[..] == OpenedAt(old(a[..]), startPoint, size, nil)
  {
    var x: int := size - 2;
    while x > startPoint - 1
      invariant x <= size - 2 && (startPoint + 1 < size ==> startPoint - 1 <= x)
      invariant forall k :: 0 <= k < a.Length && (k <= x || size <= k) ==> a[k] == old(a[k])
      invariant forall k :: 0 < k && x + 1 < k < size && startPoint + 1 < size ==> a[k] == old(a[k - 1])
      invariant if x < size - 2 && startPoint + 1 < size then a[x + 1] == nil else a[..] == old(a[..])
    {
      a[x + 1] := a[x];
      a[x] := nil;
      x := x - 1;
    }
  }

  method ShiftLeftOnce<T>(a: array<T>, startPoint: nat, size: nat, nil: T)
    requires size <= a.Length
    modifies a
    ensures a[..] == ClosedAt(old(a[..]), startPoint, size, nil)
  {
    var x := startPoint + 1;
    while x < size
      invariant startPoint + 1 <= x && (startPoint + 1 < size ==> x <= size)
      invariant forall k :: 0 <= k < a.Length && (k < startPoint || x <= k) ==> a[k] == old(a[k])
      invariant forall k :: startPoint <= k < x - 1 && startPoint + 1 < size ==> a[k] == old(a[k + 1])
      invariant if startPoint + 1 < x && startPoint + 1 < size then a[x - 1] == nil else a[..] == old(a[..])
    {
      a[x - 1] := a[x];
      a[x] := nil;
      x := x + 1;
    }
  }

  method ShiftRightArray<T>(a: array<T>, startPoint: nat, count: nat, size: nat, nil: T)
    requires size <= a.Length
    modifies a
    ensures a[..] == ShiftedRight(old(a[..]), startPoint, count, size, nil)
  {
    for i := 0 to count
      invariant a[..] == ShiftedRight(old(a[..]), startPoint, i, size, nil)
    {
      ShiftRightOnce(a, startPoint, size, nil);
    }
  }

  method ShiftLeftArray<T>(a: array<T>, startPoint: nat, count: nat, size: nat, nil: T)
    requires size <= a.Length
    modifies a
    ensures a[..] == ShiftedLeft(old(a[..]), startPoint, count, size, nil)
  {
    for i := 0 to count
      invariant a[..] == ShiftedLeft(old(a[..]), startPoint, i, size, nil)
    {
      ShiftLeftOnce(a, startPoint, size, nil);
    }
  }

  method InsertArray<T>(a: array<T>, element: T, pos: nat, length: nat, nil: T)
    requires pos < length <= a.Length
    modifies a
    ensures a[..] == old(a[..pos] + [element] + a[pos..length - 1] + a[length..])
  {
    ShiftRightArray(a, pos, 1, length, nil);
    assert ShiftedRight(old(a[..]), pos, 1, length, nil) == OpenedAt(old(a[..]), pos, length, nil);
    a[pos] := element;
  }

  method InitializeArray<T>(a: array<T>, size: nat, nil: T)
    requires size <= a.Length
    modifies a
    ensures a[..] == seq(size, _ => nil) + old(a[size..])
  {
    for x := 0 to size
      invariant forall k :: 0 <= k < a.Length ==> a[k] == if k < x then nil else old(a[k])
    {
      a[x] := nil;
    }
  }

  method CopyArray<T>(source: array<T>, destination: array<T>, startIndex: nat, endIndex: int, offset: nat)
    requires source != destination && endIndex < source.Length
    requires startIndex <= endIndex ==> offset + endIndex + 1 - startIndex <= destination.Length
    modifies destination
    ensures startIndex <= endIndex ==>
              destination[..] == old(destination[..offset] + source[startIndex..endIndex + 1] +
                                     destination[offset + endIndex + 1 - startIndex..])
    ensures startIndex > endIndex ==> destination[..] == old(destination[..])
  {
    var i, x := offset, startIndex;
    while x <= endIndex
      invariant i == offset + x - startIndex && startIndex <= x && (x <= endIndex + 1 || x == startIndex)
      invariant forall k :: 0 <= k < destination.Length ==>
        destination[k] == if offset <= k < i then source[startIndex + k - offset] else old(destination[k])
    {
      destination[i] := source[x];
      i, x := i + 1, x + 1;
    }
  }

  /** The first `len` slots hold ks, and the rest up to `size` are empty. */
  ghost predicate Holds(slots: seq<Option<Entry>>, ks: seq<Entry>, size: nat) {
    |ks| <= size <= |slots| &&
    forall i :: 0 <= i < size ==> slots[i] == if i < |ks| then Some(ks[i]) else None
  }

  method FindInsertPositionArray(elements: array<Option<Entry>>, index: Entry, len: nat, size: nat,
                                 ghost ks: seq<Entry>)
    returns (indexPositionResult: nat)
    requires Holds(elements[..], ks, size) && len == |ks|
    ensures indexPositionResult == InsertPos(ks, K(index))
  {
    indexPositionResult := 0;
    if len == 0 {
      return 0;
    }
    var found := false;
    var x := 0;
    while x < size && !found
      invariant x <= size && x <= |ks|
      invariant forall i :: 0 <= i < x ==> K(index) <= K(ks[i])
      invariant found ==> x < size && indexPositionResult == x && (x < |ks| ==> K(ks[x]) < K(index))
      invariant !found ==> indexPositionResult == if x == 0 then 0 else x - 1
      decreases size - x, !found
    {
      assert elements[..][x] == elements[x];
      indexPositionResult := x;
      match elements[x] {
        case None => found := true;
        case Some(current) =>
          CompareIsRankOrder(current.key, index.key);
          if Compare(current.key, index.key) < 0 {
            found := true;
          } else {
            x := x + 1;
          }
      }
    }
    if !found {
      indexPositionResult := indexPositionResult + 1;
    }
    InsertPosUnique(ks, K(index), indexPositionResult);
  }

  // ---- Pages ---------------------------------------------------------------------------------------

  /** A page's number; the null pointer is -1. */
  type Ref = int

  const NIL: Ref := -1

  /** A page as a value. */
  datatype PageV = PageV(size: int, elements: seq<Option<Entry>>, pointers: seq<Ref>, parent: Ref)

  class IndexPage {
    const elements: array<Option<Entry>>
    const pointers: array<Ref>
    var parentElement: Ref
    var size: int

    constructor (b: Bucket)
      ensures fresh(elements) && fresh(pointers) && elements.Length == b && pointers.Length == b + 1
      ensures parentElement == NIL && size == 0
      ensures elements[..] == seq(b, _ => None) && pointers[..] == seq(b + 1, _ => NIL)
    {
      parentElement := NIL;
      size := 0;
      elements := new Option<Entry>[b](_ => None);
      pointers := new Ref[b + 1](_ => NIL);
    }

    /** What the page stands for. Between the split that makes an inner page and the shift that drops its promoted
        first element, that element and the empty pointer before it do not count. */
    ghost function View(promoted: bool): PageV
      reads this, elements, pointers
    {
      if promoted && elements.Length > 0 && pointers.Length > 0
      then PageV(size - 1, elements[1..] + [None], pointers[1..] + [NIL], parentElement)
      else PageV(size, elements[..], pointers[..], parentElement)
    }

    predicate IsFull(b: Bucket)
      reads this`size
    {
      size >= b
    }

    method IsLeaf() returns (leaf: bool)
      requires 0 <= size < pointers.Length
      ensures leaf <==> forall x :: 0 <= x <= size ==> pointers[x] == NIL
    {
      for x := 0 to size + 1
        invariant forall i :: 0 <= i < x ==> pointers[i] == NIL
      {
        if pointers[x] != NIL {
          return false;
        }
      }
      return true;
    }
  }
}
