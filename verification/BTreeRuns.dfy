/** What a scan reports, how high the tree is, and what holds of an index after any run of operations. */
module BTreeRuns {
  import opened Ids
  import opened BTree
  import opened BTreeProofs
  import opened BTreeFacts
  import opened BTreeReading

  // ---- Scans ---------------------------------------------------------------------------------------

  lemma {:induction false} FilterConcat(a: seq<Entry>, c: seq<Entry>, wanted: Entry -> bool)
    ensures Filter(a + c, wanted) == Filter(a, wanted) + Filter(c, wanted)
  {
    if a == [] {
      assert a + c == c;
    } else {
      assert (a + c)[1..] == a[1..] + c && (a + c)[0] == a[0];
      FilterConcat(a[1..], c, wanted);
      var first := if wanted(a[0]) then [a[0]] else [];
      assert first + (Filter(a[1..], wanted) + Filter(c, wanted)) ==
             (first + Filter(a[1..], wanted)) + Filter(c, wanted);
    }
  }

  ghost predicate Accounted(scan: seq<Entry>, leaves: seq<Entry>, seps: seq<Entry>, wanted: Entry -> bool) {
    multiset(scan) == multiset(Filter(leaves, wanted)) + multiset(Filter(seps, wanted))
  }

  /** A scan reports every matching leaf entry once, and every matching separator besides. */
  lemma {:induction false} ScanAccount(b: Bucket, t: Tree, wanted: Entry -> bool)
    requires Shaped(b, t)
    ensures multiset(Scan(t, wanted)) == multiset(Filter(InOrder(t), wanted)) + multiset(Filter(Seps(t), wanted))
    decreases t
  {
    if t.Node? {
      ScansAccount(b, t.ks, t.cs, wanted);
    }
  }

  lemma {:induction false} ScansAccount(b: Bucket, ks: seq<Entry>, cs: seq<Tree>, wanted: Entry -> bool)
    requires |cs| == |ks| + 1 && forall i :: 0 <= i < |cs| ==> Shaped(b, cs[i])
    ensures Accounted(Scans(cs, wanted) + Filter(ks, wanted), InOrders(cs), Weave(ks, cs), wanted)
    decreases cs
  {
    ScanAccount(b, cs[0], wanted);
    if ks != [] {
      ScansAccount(b, ks[1..], cs[1..], wanted);
      AccountStep(cs[0], ks[0], ks[1..], cs[1..], wanted);
      assert [ks[0]] + ks[1..] == ks;
    } else {
      assert cs[1..] == [];
      assert InOrders(cs) == InOrder(cs[0]);
    }
  }

  lemma AccountStep(c: Tree, k: Entry, ks: seq<Entry>, cs: seq<Tree>, wanted: Entry -> bool)
    requires Accounted(Scan(c, wanted), InOrder(c), Seps(c), wanted)
    requires Accounted(Scans(cs, wanted) + Filter(ks, wanted), InOrders(cs), Weave(ks, cs), wanted)
    ensures Accounted(Scans(cs, wanted) + Scan(c, wanted) + Filter([k] + ks, wanted),
                      InOrder(c) + InOrders(cs), Seps(c) + [k] + Weave(ks, cs), wanted)
  {
    FilterConcat(InOrder(c), InOrders(cs), wanted);
    FilterConcat(Seps(c) + [k], Weave(ks, cs), wanted);
    FilterConcat(Seps(c), [k], wanted);
    FilterConcat([k], ks, wanted);
    Shuffle(multiset(Scan(c, wanted)), multiset(Filter(InOrder(c), wanted)), multiset(Filter(Seps(c), wanted)),
            multiset(Scans(cs, wanted)), multiset(Filter(ks, wanted)), multiset(Filter(InOrders(cs), wanted)),
            multiset(Filter(Weave(ks, cs), wanted)), multiset(Filter([k], wanted)));
  }

  lemma Shuffle<T>(scan: multiset<T>, leaf: multiset<T>, sep: multiset<T>, scans: multiset<T>, own: multiset<T>,
                   leaves: multiset<T>, seps: multiset<T>, k: multiset<T>)
    requires scan == leaf + sep && scans + own == leaves + seps
    ensures scans + scan + (k + own) == leaf + leaves + (sep + k + seps)
  {
    assert scans + scan + (k + own) == (scans + own) + scan + k;
    assert leaf + leaves + (sep + k + seps) == (leaves + seps) + (leaf + sep) + k;
  }

  // ---- Height --------------------------------------------------------------------------------------

  function Pow(base: nat, n: nat): nat {
    if n == 0 then 1 else base * Pow(base, n - 1)
  }

  lemma MulMonotone(a: nat, c: nat, p: nat)
    requires a <= c
    ensures a * p <= c * p
  {
  }

  lemma {:induction false} LeavesOf(cs: seq<Tree>, m: nat)
    requires forall i :: 0 <= i < |cs| ==> |InOrder(cs[i])| >= m
    ensures |InOrders(cs)| >= |cs| * m
  {
    if cs != [] {
      LeavesOf(cs[1..], m);
      assert |cs| * m == m + |cs[1..]| * m;
    }
  }

  lemma {:induction false} EntriesBelow(b: Bucket, t: Tree, n: nat)
    requires Shaped(b, t) && Balanced(b, t, n, false)
    ensures |InOrder(t)| >= Pow(b / 2 + 1, n + 1)
  {
    var m := b / 2 + 1;
    if t.Node? {
      var p := Pow(m, n);
      forall i | 0 <= i < |t.cs| ensures |InOrder(t.cs[i])| >= p {
        EntriesBelow(b, t.cs[i], n - 1);
      }
      LeavesOf(t.cs, p);
      MulMonotone(m, |t.cs|, p);
    } else {
      assert Pow(m, 1) == m * Pow(m, 0);
    }
  }

  /** A tree of n + 1 levels, n >= 1, holds at least 2 ((b+1)/2)^n entries: a search visits logarithmically many
      pages. */
  lemma HeightIsLogarithmic(b: Bucket, t: Tree, n: nat)
    requires WellFormed(b, t, n) && n > 0
    ensures |InOrder(t)| >= 2 * Pow(b / 2 + 1, n)
  {
    var p := Pow(b / 2 + 1, n);
    forall i | 0 <= i < |t.cs| ensures |InOrder(t.cs[i])| >= p {
      EntriesBelow(b, t.cs[i], n - 1);
    }
    LeavesOf(t.cs, p);
    MulMonotone(2, |t.cs|, p);
  }

  // ---- Runs ----------------------------------------------------------------------------------------

  /** An operation on the index: `add` a key, or `update` its position. */
  datatype Op = Add(e: Entry) | Reposition(key: Id, pos: int)

  function Run(b: Bucket, ops: seq<Op>): (t: Tree)
    ensures Shaped(b, t)
  {
    if ops == [] then Leaf([])
    else
      var t := Run(b, ops[..|ops| - 1]);
      match ops[|ops| - 1]
      case Add(e) => InsertRoot(b, t, e)
      case Reposition(key, pos) => Update(b, t, Rank(key), pos)
  }

  /** The index as a plain map: the last position given to a key. */
  function Positions(ops: seq<Op>): map<Id, int> {
    if ops == [] then map[]
    else
      var m := Positions(ops[..|ops| - 1]);
      match ops[|ops| - 1]
      case Add(e) => m[e.key := e.posData]
      case Reposition(key, pos) => if key in m then m[key := pos] else m
  }

  /** No key is added twice. */
  predicate FreshRun(ops: seq<Op>) {
    ops == [] ||
    (FreshRun(ops[..|ops| - 1]) && (ops[|ops| - 1].Add? ==> ops[|ops| - 1].e.key !in Positions(ops[..|ops| - 1])))
  }

  /** The position the leaves record for a key. */
  function LeafPosition(t: Tree, key: Id): Option<int> {
    match Find(InOrder(t), Rank(key))
    case Some(e) => Some(e.posData)
    case None => None
  }

  /** The position `find` answers with: the first element with the key on the way down. */
  function FoundPosition(b: Bucket, t: Tree, key: Id): Option<int>
    requires Shaped(b, t)
  {
    match Lookup(b, t, Rank(key))
    case Some(e) => Some(e.posData)
    case None => None
  }

  lemma FindInserted(es: seq<Entry>, p: nat, e: Entry, k: nat)
    requires p <= |es| && StrictDesc(es) && StrictDesc(InsertAt(es, p, e))
    ensures Find(InsertAt(es, p, e), k) == if K(e) == k then Some(e) else Find(es, k)
  {
    var es' := InsertAt(es, p, e);
    assert es'[p] == e;
    if K(e) == k {
      FindUnique(es', e);
    } else {
      forall x | x in es ensures x in es' {
        var i :| 0 <= i < |es| && es[i] == x;
        assert es'[if i < p then i else i + 1] == x;
      }
      FindSame(es', es, k);
    }
  }

  lemma FindRepositioned(es: seq<Entry>, k: nat, pos: int, j: nat)
    requires StrictDesc(es)
    ensures var r := Find(es, j);
            Find(Repositioned(es, k, pos), j) == if r.Some? && j == k then Some(r.value.(posData := pos)) else r
  {
    var i, es' := FirstAtMost(es, k), Repositioned(es, k, pos);
    if i < |es| && K(es[i]) == k {
      FindUnique(es, es[i]);
      FindUnique(es', es'[i]);
      if j != k {
        forall x | K(x) == j ensures x in es <==> x in es' {
          if x in es { var m :| 0 <= m < |es| && es[m] == x; assert es'[m] == x; }
          if x in es' { var m :| 0 <= m < |es| && es'[m] == x; assert es[m] == x; }
        }
        FindElsewhere(es, es', j);
      }
    } else {
      Slots(es, i, k);
    }
  }

  lemma FindElsewhere(es: seq<Entry>, es': seq<Entry>, j: nat)
    requires StrictDesc(es) && StrictDesc(es')
    requires forall x :: K(x) == j ==> (x in es <==> x in es')
    ensures Find(es, j) == Find(es', j)
  {
    var r := Find(es, j);
    if r.Some? {
      FindUnique(es', r.value);
    }
  }

  /** `add` of a fresh key adds it to the map the leaves form. */
  lemma AddReads(b: Bucket, t: Tree, n: nat, e: Entry, key: Id)
    requires WellFormed(b, t, n) && LeafPosition(t, e.key) == None
    ensures WellFormed(b, InsertRoot(b, t, e), NewHeight(b, t, e, n))
    ensures LeafPosition(InsertRoot(b, t, e), key) == if key == e.key then Some(e.posData) else LeafPosition(t, key)
  {
    var es := InOrder(t);
    assert Fresh(t, K(e));
    InsertKeepsWellFormed(b, t, n, e);
    OrderedLeaves(t, -1, None);
    OrderedLeaves(InsertRoot(b, t, e), -1, None);
    FindInserted(es, InsertPos(es, K(e)), e, Rank(key));
    CompareIsRankOrder(key, e.key);
  }

  /** `update` of a key changes the map the leaves form at that key, if it is there, and nowhere else. */
  lemma UpdateReads(b: Bucket, t: Tree, n: nat, of: Id, pos: int, key: Id)
    requires WellFormed(b, t, n)
    ensures WellFormed(b, Update(b, t, Rank(of), pos), n)
    ensures LeafPosition(Update(b, t, Rank(of), pos), key)
         == if key == of && LeafPosition(t, key).Some? then Some(pos) else LeafPosition(t, key)
  {
    UpdateLeaves(b, t, Rank(of), pos, -1, None);
    UpdateKeepsOrder(b, t, Rank(of), pos, -1, None);
    UpdateKeepsBalance(b, t, Rank(of), pos, n, true);
    OrderedLeaves(t, -1, None);
    FindRepositioned(InOrder(t), Rank(of), pos, Rank(key));
    CompareIsRankOrder(key, of);
  }

  lemma AddRefines(b: Bucket, t: Tree, n: nat, e: Entry)
    requires WellFormed(b, t, n) && LeafPosition(t, e.key) == None
    ensures WellFormed(b, InsertRoot(b, t, e), NewHeight(b, t, e, n))
    ensures forall key: Id :: LeafPosition(InsertRoot(b, t, e), key)
                           == if key == e.key then Some(e.posData) else LeafPosition(t, key)
  {
    AddReads(b, t, n, e, []);
    forall key: Id { AddReads(b, t, n, e, key); }
  }

  lemma UpdateRefines(b: Bucket, t: Tree, n: nat, of: Id, pos: int)
    requires WellFormed(b, t, n)
    ensures WellFormed(b, Update(b, t, Rank(of), pos), n)
    ensures forall key: Id :: LeafPosition(Update(b, t, Rank(of), pos), key)
                           == if key == of && LeafPosition(t, key).Some? then Some(pos) else LeafPosition(t, key)
  {
    UpdateReads(b, t, n, of, pos, []);
    forall key: Id { UpdateReads(b, t, n, of, pos, key); }
  }

  /** After any run that adds distinct keys the tree is well formed and its leaves hold exactly the map. */
  lemma {:induction false} RunRefinesMap(b: Bucket, ops: seq<Op>) returns (n: nat)
    requires FreshRun(ops)
    ensures WellFormed(b, Run(b, ops), n)
    ensures forall key: Id ::
      LeafPosition(Run(b, ops), key) == if key in Positions(ops) then Some(Positions(ops)[key]) else None
  {
    if ops == [] {
      n := 0;
    } else {
      var before := ops[..|ops| - 1];
      n := RunRefinesMap(b, before);
      var t := Run(b, before);
      match ops[|ops| - 1] {
        case Add(e) =>
          AddRefines(b, t, n, e);
          n := NewHeight(b, t, e, n);
        case Reposition(of, pos) => UpdateRefines(b, t, n, of, pos);
      }
    }
  }

  // ---- Where find and the leaves part ----------------------------------------------------------------

  /** What `find` and the leaves disagree about: a separator with another position than the leaf. */
  lemma FindIsCurrentUnlessSeparatorIsStale(b: Bucket, t: Tree, n: nat, key: Id)
    requires WellFormed(b, t, n)
    ensures var s := Find(Seps(t), Rank(key));
            FoundPosition(b, t, key) == LeafPosition(t, key) <==>
            (s.Some? ==> LeafPosition(t, key) == Some(s.value.posData))
  {
    LookupReads(b, t, Rank(key), -1, None);
  }

  /** An update of a key that is also a separator stays invisible to `find`. */
  lemma UpdateOfSeparatorIsUnseen(b: Bucket, t: Tree, n: nat, key: Id, pos: int)
    requires WellFormed(b, t, n) && Find(Seps(t), Rank(key)).Some?
    ensures FoundPosition(b, Update(b, t, Rank(key), pos), key) == FoundPosition(b, t, key)
  {
    LookupReads(b, t, Rank(key), -1, None);
    UpdateReads(b, t, n, key, pos, key);
    UpdateKeepsSeps(b, t, Rank(key), pos);
    LookupReads(b, Update(b, t, Rank(key), pos), Rank(key), -1, None);
  }

  /** Where `find` and the leaves agree on a key, they agree after an update of it if and only if the key is no
      separator or the position is the old one. */
  lemma UpdateKeepsFindCurrent(b: Bucket, t: Tree, n: nat, key: Id, pos: int)
    requires WellFormed(b, t, n) && LeafPosition(t, key).Some? && FoundPosition(b, t, key) == LeafPosition(t, key)
    ensures var t' := Update(b, t, Rank(key), pos);
            FoundPosition(b, t', key) == LeafPosition(t', key) <==>
            Find(Seps(t), Rank(key)).None? || LeafPosition(t, key) == Some(pos)
  {
    UpdateReads(b, t, n, key, pos, key);
    if Find(Seps(t), Rank(key)).Some? {
      UpdateOfSeparatorIsUnseen(b, t, n, key, pos);
    } else {
      UpdateKeepsSeps(b, t, Rank(key), pos);
      FindIsCurrentUnlessSeparatorIsStale(b, Update(b, t, Rank(key), pos), n, key);
    }
  }

  /** Every separator is a copy of a leaf entry: positions included as long as nothing was updated. */
  ghost predicate InSync(t: Tree) {
    forall x :: x in Seps(t) ==> x in InOrder(t)
  }

  lemma AddKeepsSync(b: Bucket, t: Tree, n: nat, e: Entry)
    requires WellFormed(b, t, n) && Fresh(t, K(e)) && InSync(t)
    ensures InSync(InsertRoot(b, t, e))
  {
    InsertConserves(b, t, e);
    forall x | x in Seps(InsertRoot(b, t, e)) ensures x in InOrder(InsertRoot(b, t, e)) {
      InsertSeps(b, t, e, x);
      if x in Seps(t) {
        assert x in multiset(InOrder(t)) + multiset{e};
      }
    }
  }

  lemma {:induction false} AddOnlyRunInSync(b: Bucket, ops: seq<Op>)
    requires FreshRun(ops) && forall i :: 0 <= i < |ops| ==> ops[i].Add?
    ensures InSync(Run(b, ops))
  {
    if ops != [] {
      var before := ops[..|ops| - 1];
      var e := ops[|ops| - 1].e;
      AddOnlyRunInSync(b, before);
      var n := RunRefinesMap(b, before);
      assert LeafPosition(Run(b, before), e.key) == None;
      AddKeepsSync(b, Run(b, before), n, e);
    }
  }

  /** After any run of additions of distinct keys, `find` is the map: the position added, or nothing. */
  lemma AddOnlyRunFinds(b: Bucket, ops: seq<Op>, key: Id)
    requires FreshRun(ops) && forall i :: 0 <= i < |ops| ==> ops[i].Add?
    ensures FoundPosition(b, Run(b, ops), key) == if key in Positions(ops) then Some(Positions(ops)[key]) else None
  {
    var t := Run(b, ops);
    var n := RunRefinesMap(b, ops);
    AddOnlyRunInSync(b, ops);
    OrderedLeaves(t, -1, None);
    var s := Find(Seps(t), Rank(key));
    if s.Some? {
      FindUnique(InOrder(t), s.value);
    }
    FindIsCurrentUnlessSeparatorIsStale(b, t, n, key);
  }
}
