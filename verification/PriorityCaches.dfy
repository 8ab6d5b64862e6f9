/** The cache that forgets what was touched longest ago: a map, and a list of its keys by recency. */
module PriorityCaches {
  datatype State<K, V> = State(elements: map<K, V>, priority: seq<K>)

  datatype Option<V> = None | Some(value: V)

  predicate Distinct<K(==)>(s: seq<K>) {
    forall i, j :: 0 <= i < j < |s| ==> s[i] != s[j]
  }

  /** The keys of the map and of the list are the same, without repeats and never more than top. */
  ghost predicate Consistent<K, V>(top: nat, s: State<K, V>) {
    Distinct(s.priority) && |s.priority| <= top &&
    (forall k :: k in s.priority ==> k in s.elements) && forall k :: k in s.elements ==> k in s.priority
  }

  // ---- The operations on values ----------------------------------------------------------------------

  /** The list without a key. */
  function Without<K(==)>(s: seq<K>, key: K): (r: seq<K>)
    ensures forall k :: k in r ==> k in s && k != key
    ensures forall k :: k in s && k != key ==> k in r
    ensures |r| <= |s| && (key in s ==> |r| < |s|) && (key !in s ==> r == s)
  {
    if s == [] then [] else if s[0] == key then Without(s[1..], key) else [s[0]] + Without(s[1..], key)
  }

  lemma {:induction false} WithoutDistinct<K>(s: seq<K>, key: K)
    requires Distinct(s)
    ensures Distinct(Without(s, key)) && |Without(s, key)| == |s| - if key in s then 1 else 0
  {
    if s != [] {
      var rest := Without(s[1..], key);
      WithoutDistinct(s[1..], key);
      assert forall j :: 0 <= j < |rest| ==> rest[j] in s[1..];
      assert forall j :: 1 <= j < |s| ==> s[j] != s[0];
    }
  }

  function Erased<K(==), V>(s: State<K, V>, key: K): State<K, V> {
    State(map k | k in s.elements && k != key :: s.elements[k], Without(s.priority, key))
  }

  /** `add`: a full cache forgets its oldest key first, even where the key is held already. */
  function Added<K(==), V>(top: nat, s: State<K, V>, key: K, val: V): State<K, V> {
    var room := if |s.priority| == top && top > 0 then Erased(s, s.priority[top - 1]) else s;
    State(Erased(room, key).elements[key := val], [key] + Erased(room, key).priority)
  }

  function Touched<K(==), V>(s: State<K, V>, key: K): State<K, V> {
    if key in s.elements then State(s.elements, [key] + Without(s.priority, key)) else s
  }

  // ---- The cache -------------------------------------------------------------------------------------

  class PriorityCache<K(==), V> {
    const top: nat
    var elements: map<K, V>
    var priority: seq<K>

    ghost predicate Valid()
      reads this
    {
      top >= 1 && Consistent(top, Value())
    }

    ghost function Value(): State<K, V>
      reads this
    {
      State(elements, priority)
    }

    constructor (top: nat)
      requires top >= 1
      ensures Valid() && this.top == top && Value() == State(map[], [])
    {
      this.top := top;
      elements := map[];
      priority := [];
    }

    /** `findPriority`: the key's place in the list, or its end. */
    method FindPriority(key: K) returns (i: nat)
      ensures i <= |priority| && (forall j :: 0 <= j < i ==> priority[j] != key) &&
              (i < |priority| ==> priority[i] == key)
    {
      i := 0;
      while i < |priority|
        invariant i <= |priority| && forall j :: 0 <= j < i ==> priority[j] != key
      {
        var found := key == priority[i];
        if found {
          break;
        }
        i := i + 1;
      }
    }

    /** `erasePriority`. */
    method ErasePriority(key: K)
      requires Distinct(priority)
      modifies this`priority
      ensures priority == Without(old(priority), key)
    {
      var i := FindPriority(key);
      if i < |priority| {
        WithoutAt(priority, key, i);
        priority := priority[..i] + priority[i + 1..];
      }
    }

    /** `erase`. */
    method Erase(key: K)
      requires Valid()
      modifies this
      ensures Valid() && Value() == Erased(old(Value()), key)
    {
      if key in elements {
        elements := map k | k in elements && k != key :: elements[k];
      }
      WithoutDistinct(priority, key);
      ErasePriority(key);
      assert elements == Erased(old(Value()), key).elements;
    }

    method Clear()
      requires Valid()
      modifies this
      ensures Valid() && Value() == State(map[], [])
    {
      priority := [];
      elements := map[];
    }

    /** `add`. */
    method Add(key: K, val: V)
      requires Valid()
      modifies this
      ensures Valid() && Value() == Added(top, old(Value()), key, val)
    {
      if |priority| == top {
        var keyPriority := priority[|priority| - 1];
        Erase(keyPriority);
      }
      Erase(key);
      elements := elements[key := val];
      priority := [key] + priority;
      AddedIsConsistent(top, old(Value()), key, val);
    }

    /** `get`: what is held for the key, which becomes the most recent one. */
    method Get(key: K) returns (held: Option<V>)
      requires Valid()
      modifies this
      ensures Valid() && Value() == Touched(old(Value()), key)
      ensures held == if key in old(elements) then Some(old(elements)[key]) else None
    {
      held := None;
      if key in elements {
        held := Some(elements[key]);
        WithoutDistinct(priority, key);
        ErasePriority(key);
        priority := [key] + priority;
      }
    }
  }

  lemma {:induction false} WithoutAt<K>(s: seq<K>, key: K, i: nat)
    requires i < |s| && s[i] == key && Distinct(s)
    ensures Without(s, key) == s[..i] + s[i + 1..]
  {
    if i == 0 {
      assert key !in s[1..];
    } else {
      WithoutAt(s[1..], key, i - 1);
    }
  }

  // ---- Runs ------------------------------------------------------------------------------------------

  datatype Op<K, V> = Add(k: K, v: V) | Get(k: K) | Erase(k: K) | Clear

  function Step<K(==), V>(top: nat, s: State<K, V>, op: Op<K, V>): State<K, V> {
    match op
    case Add(k, v) => Added(top, s, k, v)
    case Get(k) => Touched(s, k)
    case Erase(k) => Erased(s, k)
    case Clear => State(map[], [])
  }

  function Run<K(==), V>(top: nat, ops: seq<Op<K, V>>): State<K, V> {
    if ops == [] then State(map[], []) else Step(top, Run(top, ops[..|ops| - 1]), ops[|ops| - 1])
  }

  lemma AddedIsConsistent<K, V>(top: nat, s: State<K, V>, key: K, val: V)
    requires top >= 1 && Consistent(top, s)
    ensures Consistent(top, Added(top, s, key, val))
  {
    var room := if |s.priority| == top then Erased(s, s.priority[top - 1]) else s;
    if |s.priority| == top {
      WithoutDistinct(s.priority, s.priority[top - 1]);
    }
    WithoutDistinct(room.priority, key);
  }

  lemma StepKeepsConsistent<K, V>(top: nat, s: State<K, V>, op: Op<K, V>)
    requires top >= 1 && Consistent(top, s)
    ensures Consistent(top, Step(top, s, op))
  {
    match op
    case Add(k, v) => AddedIsConsistent(top, s, k, v);
    case Get(k) => WithoutDistinct(s.priority, k);
    case Erase(k) => WithoutDistinct(s.priority, k);
    case Clear =>
  }

  lemma {:induction false} RunIsConsistent<K, V>(top: nat, ops: seq<Op<K, V>>)
    requires top >= 1
    ensures Consistent(top, Run(top, ops))
  {
    if ops != [] {
      RunIsConsistent(top, ops[..|ops| - 1]);
      StepKeepsConsistent(top, Run(top, ops[..|ops| - 1]), ops[|ops| - 1]);
    }
  }

  /** What is held after a call: `erase` takes its key and no other away, `clear` takes all, `add` takes the oldest
      key of a full cache, and `get` none. */
  predicate Stays<K(==), V>(top: nat, s: State<K, V>, op: Op<K, V>, k: K) {
    k in s.elements &&
    match op
    case Add(_, _) => !(|s.priority| == top > 0 && s.priority[top - 1] == k)
    case Get(_) => true
    case Erase(gone) => k != gone
    case Clear => false
  }

  /** After any call a key is held if and only if it was added by it or stays, and what stays keeps its value. */
  lemma StepHolds<K, V>(top: nat, s: State<K, V>, op: Op<K, V>, k: K)
    ensures var t := Step(top, s, op);
            (k in t.elements <==> (op.Add? && op.k == k) || Stays(top, s, op, k)) &&
            (op.Add? && op.k == k ==> t.elements[k] == op.v) &&
            (!(op.Add? && op.k == k) && Stays(top, s, op, k) ==> t.elements[k] == s.elements[k])
  {
    if op.Add? && |s.priority| == top > 0 {
      assert Erased(s, s.priority[top - 1]).elements.Keys == s.elements.Keys - {s.priority[top - 1]};
    }
  }

  predicate Touches<K(==), V(==)>(op: Op<K, V>, k: K) {
    (op.Add? || op.Get?) && op.k == k
  }

  /** One past the last operation that added or got the key. */
  function LastTouch<K(==), V(==)>(ops: seq<Op<K, V>>, k: K): (n: nat)
    ensures n <= |ops|
  {
    if ops == [] then 0 else if Touches(ops[|ops| - 1], k) then |ops| else LastTouch(ops[..|ops| - 1], k)
  }

  /** The value of the last operation that added the key. */
  function LastAdded<K(==), V>(ops: seq<Op<K, V>>, k: K, none: V): V {
    if ops == [] then none
    else if ops[|ops| - 1].Add? && ops[|ops| - 1].k == k then ops[|ops| - 1].v
    else LastAdded(ops[..|ops| - 1], k, none)
  }

  /** A list that keeps the order of another: later in it is later there. */
  lemma {:induction false} WithoutOrder<K>(s: seq<K>, key: K, i: nat, j: nat)
    requires Distinct(s) && i < j < |Without(s, key)|
    ensures exists i', j' :: 0 <= i' < j' < |s| && s[i'] == Without(s, key)[i] && s[j'] == Without(s, key)[j]
  {
    var r := Without(s, key);
    if s[0] == key {
      WithoutOrder(s[1..], key, i, j);
      var i', j' :| 0 <= i' < j' < |s[1..]| && s[1..][i'] == r[i] && s[1..][j'] == r[j];
      assert s[i' + 1] == r[i] && s[j' + 1] == r[j];
    } else if i == 0 {
      assert r[j] in Without(s[1..], key);
      var j' :| 0 <= j' < |s[1..]| && s[1..][j'] == r[j];
      assert s[0] == r[0] && s[j' + 1] == r[j];
    } else {
      WithoutOrder(s[1..], key, i - 1, j - 1);
      var i', j' :| 0 <= i' < j' < |s[1..]| && s[1..][i'] == r[i] && s[1..][j'] == r[j];
      assert s[i' + 1] == r[i] && s[j' + 1] == r[j];
    }
  }

  /** Keys in the list stand in the order of their last touch. */
  ghost predicate ByRecency<K, V>(s: seq<K>, ops: seq<Op<K, V>>) {
    forall i, j :: 0 <= i < j < |s| ==> LastTouch(ops, s[j]) < LastTouch(ops, s[i])
  }

  lemma WithoutByRecency<K, V>(s: seq<K>, key: K, ops: seq<Op<K, V>>)
    requires Distinct(s) && ByRecency(s, ops)
    ensures ByRecency(Without(s, key), ops)
  {
    var r := Without(s, key);
    forall i, j | 0 <= i < j < |r| ensures LastTouch(ops, r[j]) < LastTouch(ops, r[i]) {
      WithoutOrder(s, key, i, j);
    }
  }

  lemma FrontByRecency<K, V>(s: seq<K>, key: K, before: seq<Op<K, V>>, op: Op<K, V>)
    requires key !in s && ByRecency(s, before) && Touches(op, key)
    ensures ByRecency([key] + s, before + [op])
  {
    var ops, r := before + [op], [key] + s;
    assert ops[..|ops| - 1] == before;
    forall i, j | 0 <= i < j < |r| ensures LastTouch(ops, r[j]) < LastTouch(ops, r[i]) {
      assert r[j] == s[j - 1];
    }
  }

  /** After any run the list stands in the order of last touch. */
  lemma {:induction false} RunIsByRecency<K, V>(top: nat, ops: seq<Op<K, V>>)
    requires top >= 1
    ensures ByRecency(Run(top, ops).priority, ops)
  {
    if ops != [] {
      var before, op := ops[..|ops| - 1], ops[|ops| - 1];
      var s := Run(top, before);
      RunIsByRecency(top, before);
      RunIsConsistent(top, before);
      assert ops == before + [op];
      StepByRecency(top, s, before, op);
    }
  }

  lemma StepByRecency<K, V>(top: nat, s: State<K, V>, before: seq<Op<K, V>>, op: Op<K, V>)
    requires top >= 1 && Consistent(top, s) && ByRecency(s.priority, before)
    ensures ByRecency(Step(top, s, op).priority, before + [op])
  {
    var ops := before + [op];
    assert ops[..|ops| - 1] == before;
    match op
    case Add(k, _) =>
      var room := if |s.priority| == top then Without(s.priority, s.priority[top - 1]) else s.priority;
      if |s.priority| == top {
        WithoutByRecency(s.priority, s.priority[top - 1], before);
        WithoutDistinct(s.priority, s.priority[top - 1]);
      }
      WithoutByRecency(room, k, before);
      FrontByRecency(Without(room, k), k, before, op);
    case Get(k) =>
      if k in s.elements {
        WithoutByRecency(s.priority, k, before);
        FrontByRecency(Without(s.priority, k), k, before, op);
      } else {
        assert forall i :: 0 <= i < |s.priority| ==> s.priority[i] != k;
      }
    case Erase(k) =>
      WithoutByRecency(s.priority, k, before);
    case Clear =>
  }

  /** A held key has the value it was added with last. */
  lemma {:induction false} HeldIsLastAdded<K, V>(top: nat, ops: seq<Op<K, V>>, k: K, none: V)
    requires k in Run(top, ops).elements
    ensures Run(top, ops).elements[k] == LastAdded(ops, k, none)
  {
    if ops != [] && !(ops[|ops| - 1].Add? && ops[|ops| - 1].k == k) {
      HeldIsLastAdded(top, ops[..|ops| - 1], k, none);
    }
  }

  // ---- Survival --------------------------------------------------------------------------------------

  /** The place of a key in the list. */
  function Place<K(==)>(s: seq<K>, k: K): (i: nat)
    ensures i <= |s| && (i < |s| <==> k in s) && (i < |s| ==> s[i] == k)
  {
    if s == [] || s[0] == k then 0 else 1 + Place(s[1..], k)
  }

  lemma {:induction false} WithoutPlace<K>(s: seq<K>, key: K, k: K)
    requires k in s && k != key
    ensures Place(Without(s, key), k) <= Place(s, k)
  {
    if s[0] != k {
      WithoutPlace(s[1..], key, k);
    }
  }

  lemma {:induction false} LastPlace<K>(s: seq<K>, k: K)
    requires Distinct(s) && k in s && s[|s| - 1] == k
    ensures Place(s, k) == |s| - 1
  {
    if s[0] != k {
      LastPlace(s[1..], k);
    }
  }

  lemma WithoutMoves<K, V>(s: State<K, V>, key: K, k: K)
    requires k in s.priority && k in s.elements && k != key
    ensures var t := Erased(s, key); k in t.priority && k in t.elements && Place(t.priority, k) <= Place(s.priority, k)
  {
    WithoutPlace(s.priority, key, k);
  }

  /** One `add` or `get` moves a key at most one place back. */
  lemma AddMovesBackOnce<K, V>(top: nat, s: State<K, V>, key: K, val: V, k: K)
    requires top >= 1 && Consistent(top, s) && k in s.elements && Place(s.priority, k) + 1 < top
    ensures var t := Added(top, s, key, val); k in t.elements && Place(t.priority, k) <= Place(s.priority, k) + 1
  {
    if key != k {
      var room := s;
      if |s.priority| == top {
        var last := s.priority[top - 1];
        if last == k {
          LastPlace(s.priority, k);
        }
        WithoutMoves(s, last, k);
        room := Erased(s, last);
      }
      WithoutMoves(room, key, k);
    }
  }

  lemma GetMovesBackOnce<K, V>(top: nat, s: State<K, V>, key: K, k: K)
    requires Consistent(top, s) && k in s.elements
    ensures var t := Touched(s, key); k in t.elements && Place(t.priority, k) <= Place(s.priority, k) + 1
  {
    if key != k {
      WithoutMoves(s, key, k);
    }
  }

  lemma TouchIsFirst<K, V>(top: nat, s: State<K, V>, touch: Op<K, V>, k: K)
    requires Touches(touch, k) && k in Step(top, s, touch).elements
    ensures Place(Step(top, s, touch).priority, k) == 0
  {
  }

  lemma RunSnoc<K, V>(top: nat, ops: seq<Op<K, V>>, op: Op<K, V>)
    ensures Run(top, ops + [op]) == Step(top, Run(top, ops), op)
  {
    assert (ops + [op])[..|ops + [op]| - 1] == ops;
  }

  lemma MovesBackOnce<K, V>(top: nat, s: State<K, V>, op: Op<K, V>, k: K)
    requires top >= 1 && Consistent(top, s) && k in s.elements && Place(s.priority, k) + 1 < top && (op.Add? || op.Get?)
    ensures var t := Step(top, s, op); k in t.elements && Place(t.priority, k) <= Place(s.priority, k) + 1
  {
    if op.Add? {
      AddMovesBackOnce(top, s, op.k, op.v, k);
    } else {
      GetMovesBackOnce(top, s, op.k, k);
    }
  }

  /** A key that was just touched survives the next top - 1 calls of `add` and `get`. */
  lemma {:induction false} TouchedSurvives<K, V>(top: nat, before: seq<Op<K, V>>, touch: Op<K, V>, k: K,
                                                 after: seq<Op<K, V>>)
    requires top >= 1 && Touches(touch, k) && k in Run(top, before + [touch]).elements
    requires |after| < top && forall i :: 0 <= i < |after| ==> after[i].Add? || after[i].Get?
    ensures var t := Run(top, before + [touch] + after); k in t.elements && Place(t.priority, k) <= |after|
  {
    if after == [] {
      assert before + [touch] + after == before + [touch];
      RunSnoc(top, before, touch);
      TouchIsFirst(top, Run(top, before), touch, k);
    } else {
      var n := |after| - 1;
      var ops := before + [touch] + after[..n];
      TouchedSurvives(top, before, touch, k, after[..n]);
      assert before + [touch] + after == ops + [after[n]];
      RunSnoc(top, ops, after[n]);
      RunIsConsistent(top, ops);
      MovesBackOnce(top, Run(top, ops), after[n], k);
    }
  }

  /** Adding a key that is held already keeps every other key if and only if the cache has room or the key is the
      oldest one. Otherwise it costs the oldest key its place, and the cache is not even full any more. */
  lemma ReaddingForgets<K, V>(top: nat, s: State<K, V>, key: K, val: V)
    requires top >= 1 && Consistent(top, s) && key in s.elements
    ensures var t := Added(top, s, key, val);
            ((forall k :: k in s.elements ==> k in t.elements) <==> |s.priority| < top || s.priority[top - 1] == key) &&
            (|s.priority| == top && s.priority[top - 1] != key ==>
               |t.priority| == top - 1 && s.priority[top - 1] !in t.elements)
  {
    if |s.priority| == top && s.priority[top - 1] != key {
      OldestIsForgotten(top, s, key, val);
    }
  }

  lemma OldestIsForgotten<K, V>(top: nat, s: State<K, V>, key: K, val: V)
    requires top >= 1 && Consistent(top, s) && |s.priority| == top && key in s.elements && s.priority[top - 1] != key
    ensures var t := Added(top, s, key, val);
            |t.priority| == top - 1 && s.priority[top - 1] in s.elements && s.priority[top - 1] !in t.elements
  {
    var oldest := s.priority[top - 1];
    BothDropped(s.priority, oldest, key);
    var room := Erased(s, oldest);
    assert Added(top, s, key, val).priority == [key] + Without(Without(s.priority, oldest), key);
    assert oldest !in room.elements;
  }

  lemma BothDropped<K>(p: seq<K>, a: K, b: K)
    requires Distinct(p) && a in p && b in p && a != b
    ensures |Without(Without(p, a), b)| == |p| - 2
  {
    WithoutDistinct(p, a);
    WithoutDistinct(Without(p, a), b);
  }
}
