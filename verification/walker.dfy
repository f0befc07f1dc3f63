/** The directory walk both pipeline variants drive, made sequential: a tree
    of walk entries is visited in pre-order, a visitor decides for each entry
    what to emit and whether to descend, and subtrees below a `Skip` are never
    visited. Addresses (`seq<nat>`, child indices from the root) name nodes. */
module Walker {
  import opened Wrappers
  import opened Os
  import Channel

  /** What the visitor tells the walker to do next. */
  datatype WalkState = Continue | Skip

  /** One result of the walk iterator: an error while reading an entry, or
      an entry with its path and file-type facts. */
  datatype WalkEntry =
    | EntryError(message: string)
    | Entry(path: FsPath, isDir: bool, isSymlink: bool)

  /** A directory tree as the walk engine presents it. */
  datatype Tree = Tree(entry: WalkEntry, children: seq<Tree>)

  /** What a visitor produces for one entry. */
  datatype Visited<T> = Visited(emitted: seq<T>, state: WalkState)

  type Visitor<T> = WalkEntry -> Visited<T>

  /** The node at address `a`, if there is one. */
  function NodeAt(t: Tree, a: seq<nat>): Option<Tree>
    decreases a
  {
    if a == [] then Some(t)
    else if a[0] < |t.children| then NodeAt(t.children[a[0]], a[1..])
    else None
  }

  /** The walk reaches address `a`: it exists and every node strictly above it
      was told to `Continue`. */
  ghost predicate Reached<T>(v: Visitor<T>, t: Tree, a: seq<nat>)
    decreases a
  {
    a == [] ||
    (v(t.entry).state == Continue && a[0] < |t.children| && Reached(v, t.children[a[0]], a[1..]))
  }

  /** What the visitor emits at address `a` (nothing where there is no node). */
  function EmittedAt<T>(v: Visitor<T>, t: Tree, a: seq<nat>): seq<T> {
    match NodeAt(t, a)
    case None => []
    case Some(n) => v(n.entry).emitted
  }

  /** The emissions at the addresses `vs`, concatenated in that order. */
  function Gather<T>(v: Visitor<T>, t: Tree, vs: seq<seq<nat>>): seq<T>
    decreases |vs|
  {
    if vs == [] then [] else EmittedAt(v, t, vs[0]) + Gather(v, t, vs[1..])
  }

  function Prefix(i: nat, vs: seq<seq<nat>>): (r: seq<seq<nat>>)
    ensures |r| == |vs|
    ensures forall j :: 0 <= j < |vs| ==> r[j] == [i] + vs[j]
  {
    seq(|vs|, j requires 0 <= j < |vs| => [i] + vs[j])
  }

  /** No element of `s` occurs twice. */
  predicate NoDuplicates<X(==)>(s: seq<X>) {
    forall i, j :: 0 <= i < j < |s| ==> s[i] != s[j]
  }

  /** The addresses a walk visited, in visiting order, and what it emitted. */
  datatype Log<T> = Log(visits: seq<seq<nat>>, outputs: seq<T>)

  /** The sequential walk: visit the root, then, unless told to `Skip`, walk
      each child in turn. */
  function Walk<T>(v: Visitor<T>, t: Tree): (r: Log<T>)
    decreases t, |t.children| + 1
    ensures |r.visits| > 0 && r.visits[0] == []
    ensures forall a :: a in r.visits ==> Reached(v, t, a)
    ensures NoDuplicates(r.visits)
  {
    var here := v(t.entry);
    if here.state == Skip then Log([[]], here.emitted)
    else
      var rest := WalkChildren(v, t, 0);
      Log([[]] + rest.visits, here.emitted + rest.outputs)
  }

  /** The walks of the children `i..` of `t`, with addresses relative to `t`. */
  function WalkChildren<T>(v: Visitor<T>, t: Tree, i: nat): (r: Log<T>)
    requires i <= |t.children|
    decreases t, |t.children| - i
    ensures forall a :: a in r.visits ==>
      |a| > 0 && i <= a[0] < |t.children| && Reached(v, t.children[a[0]], a[1..])
    ensures NoDuplicates(r.visits)
  {
    if i == |t.children| then Log([], [])
    else
      var sub := Walk(v, t.children[i]);
      var rest := WalkChildren(v, t, i + 1);
      Log(Prefix(i, sub.visits) + rest.visits, sub.outputs + rest.outputs)
  }

  /** One unfolding of the walk's outputs at the root. */
  lemma WalkOutputsStep<T>(v: Visitor<T>, t: Tree)
    ensures Walk(v, t).outputs == v(t.entry).emitted
      + (if v(t.entry).state == Skip then [] else WalkChildren(v, t, 0).outputs)
  {
  }

  /** One unfolding of the children's outputs. */
  lemma WalkChildrenOutputsStep<T>(v: Visitor<T>, t: Tree, i: nat)
    requires i <= |t.children|
    ensures WalkChildren(v, t, i).outputs
      == if i == |t.children| then [] else Walk(v, t.children[i]).outputs + WalkChildren(v, t, i + 1).outputs
  {
  }

  /** Every reached address is visited: the walk prunes nothing but what
      `Skip` prunes. */
  lemma {:induction false} WalkComplete<T>(v: Visitor<T>, t: Tree, a: seq<nat>)
    requires Reached(v, t, a)
    ensures a in Walk(v, t).visits
    decreases a
  {
    if a != [] {
      var i := a[0];
      WalkComplete(v, t.children[i], a[1..]);
      WalkChildrenContains(v, t, 0, i, a[1..]);
      assert a == [i] + a[1..];
    }
  }

  /** One unfolding of the children's visits. */
  lemma WalkChildrenVisitsStep<T>(v: Visitor<T>, t: Tree, i: nat)
    requires i < |t.children|
    ensures WalkChildren(v, t, i).visits
      == Prefix(i, Walk(v, t.children[i]).visits) + WalkChildren(v, t, i + 1).visits
  {
  }

  lemma {:induction false} WalkChildrenContains<T>(v: Visitor<T>, t: Tree, j: nat, i: nat, b: seq<nat>)
    requires j <= i < |t.children|
    requires b in Walk(v, t.children[i]).visits
    ensures [i] + b in WalkChildren(v, t, j).visits
    decreases i - j
  {
    WalkChildrenVisitsStep(v, t, j);
    var here := Prefix(j, Walk(v, t.children[j]).visits);
    if j < i {
      WalkChildrenContains(v, t, j + 1, i, b);
    } else {
      var sub := Walk(v, t.children[i]);
      var k :| 0 <= k < |sub.visits| && sub.visits[k] == b;
      assert here[k] == [i] + b;
    }
  }

  /** A visited address strictly below `a` means the walk visited `a` itself
      and was told to `Continue` there: nothing below a `Skip` is visited. */
  lemma {:induction false} ReachedBelow<T>(v: Visitor<T>, t: Tree, a: seq<nat>, c: seq<nat>)
    requires Reached(v, t, a + c) && |c| > 0
    ensures Reached(v, t, a)
    ensures NodeAt(t, a).Some? && v(NodeAt(t, a).value.entry).state == Continue
    decreases a
  {
    if a != [] {
      assert (a + c)[1..] == a[1..] + c;
      ReachedBelow(v, t.children[a[0]], a[1..], c);
    }
  }

  lemma {:induction false} NotReachedBelowSkip<T>(v: Visitor<T>, t: Tree, a: seq<nat>, c: seq<nat>)
    requires NodeAt(t, a).Some? && v(NodeAt(t, a).value.entry).state == Skip && |c| > 0
    ensures !Reached(v, t, a + c)
    decreases a
  {
    if a != [] {
      assert (a + c)[1..] == a[1..] + c;
      NotReachedBelowSkip(v, t.children[a[0]], a[1..], c);
    }
  }

  /** Nothing strictly below a node told to `Skip` is visited. */
  lemma WalkSkipHides<T>(v: Visitor<T>, t: Tree, a: seq<nat>, c: seq<nat>)
    requires NodeAt(t, a).Some? && v(NodeAt(t, a).value.entry).state == Skip && |c| > 0
    ensures a + c !in Walk(v, t).visits
  {
    NotReachedBelowSkip(v, t, a, c);
  }

  /** Pruning, stated on the walk itself. */
  lemma WalkPrunes<T>(v: Visitor<T>, t: Tree, a: seq<nat>, c: seq<nat>)
    requires a + c in Walk(v, t).visits && |c| > 0
    ensures a in Walk(v, t).visits
    ensures NodeAt(t, a).Some? && v(NodeAt(t, a).value.entry).state == Continue
  {
    ReachedBelow(v, t, a, c);
    WalkComplete(v, t, a);
  }

  lemma {:induction false} GatherAppend<T>(v: Visitor<T>, t: Tree, xs: seq<seq<nat>>, ys: seq<seq<nat>>)
    ensures Gather(v, t, xs + ys) == Gather(v, t, xs) + Gather(v, t, ys)
    decreases |xs|
  {
    if xs == [] {
      assert xs + ys == ys;
    } else {
      assert (xs + ys)[1..] == xs[1..] + ys;
      GatherAppend(v, t, xs[1..], ys);
    }
  }

  lemma {:induction false} GatherPrefix<T>(v: Visitor<T>, t: Tree, i: nat, vs: seq<seq<nat>>)
    requires i < |t.children|
    ensures Gather(v, t, Prefix(i, vs)) == Gather(v, t.children[i], vs)
    decreases |vs|
  {
    if vs != [] {
      var p := Prefix(i, vs);
      assert p[1..] == Prefix(i, vs[1..]);
      assert p[0][1..] == vs[0];
      GatherPrefix(v, t, i, vs[1..]);
    }
  }

  /** The walk's outputs are the emissions of the visited addresses, in
      visiting order. */
  lemma {:induction false} WalkGathers<T>(v: Visitor<T>, t: Tree)
    ensures Walk(v, t).outputs == Gather(v, t, Walk(v, t).visits)
    decreases t, |t.children| + 1
  {
    var here := v(t.entry);
    assert Gather(v, t, [[]]) == here.emitted;
    if here.state == Continue {
      var rest := WalkChildren(v, t, 0);
      WalkChildrenGathers(v, t, 0);
      GatherAppend(v, t, [[]], rest.visits);
    }
  }

  lemma {:induction false} WalkChildrenGathers<T>(v: Visitor<T>, t: Tree, i: nat)
    requires i <= |t.children|
    ensures WalkChildren(v, t, i).outputs == Gather(v, t, WalkChildren(v, t, i).visits)
    decreases t, |t.children| - i
  {
    if i < |t.children| {
      var sub := Walk(v, t.children[i]);
      var rest := WalkChildren(v, t, i + 1);
      WalkGathers(v, t.children[i]);
      WalkChildrenGathers(v, t, i + 1);
      GatherPrefix(v, t, i, sub.visits);
      GatherAppend(v, t, Prefix(i, sub.visits), rest.visits);
    }
  }

  lemma {:induction false} GatherOrigin<T>(v: Visitor<T>, t: Tree, vs: seq<seq<nat>>, o: T)
    requires o in Gather(v, t, vs)
    ensures exists a :: a in vs && o in EmittedAt(v, t, a)
    decreases |vs|
  {
    if o !in EmittedAt(v, t, vs[0]) {
      GatherOrigin(v, t, vs[1..], o);
      var a :| a in vs[1..] && o in EmittedAt(v, t, a);
      assert a in vs;
    }
  }

  /** Every output of the walk was emitted at an address the walk reached. */
  lemma WalkOutputOrigin<T>(v: Visitor<T>, t: Tree, o: T)
    requires o in Walk(v, t).outputs
    ensures exists a :: Reached(v, t, a) && o in EmittedAt(v, t, a)
  {
    WalkGathers(v, t);
    GatherOrigin(v, t, Walk(v, t).visits, o);
  }

  /** In a list without duplicates every element occurs once or not at all. */
  lemma {:induction false} NoDuplicatesCount<X>(s: seq<X>, x: X)
    requires NoDuplicates(s)
    ensures multiset(s)[x] == if x in s then 1 else 0
    decreases |s|
  {
    if s != [] {
      assert s == [s[0]] + s[1..];
      assert NoDuplicates(s[1..]);
      assert s[0] !in s[1..];
      NoDuplicatesCount(s[1..], x);
    }
  }

  /** The walk visits each reached address exactly once and no other. */
  lemma WalkVisitsOnce<T>(v: Visitor<T>, t: Tree, a: seq<nat>)
    ensures multiset(Walk(v, t).visits)[a] == if Reached(v, t, a) then 1 else 0
  {
    if Reached(v, t, a) {
      WalkComplete(v, t, a);
    }
    NoDuplicatesCount(Walk(v, t).visits, a);
  }

  lemma {:induction false} GatherContains<T>(v: Visitor<T>, t: Tree, vs: seq<seq<nat>>, a: seq<nat>)
    requires a in vs
    ensures multiset(EmittedAt(v, t, a)) <= multiset(Gather(v, t, vs))
    decreases |vs|
  {
    if vs[0] != a {
      GatherContains(v, t, vs[1..], a);
    }
  }

  /** Whatever the visitor emits at a reached address is among the walk's
      outputs, with its multiplicities: none of it is lost. */
  lemma EmittedInOutputs<T>(v: Visitor<T>, t: Tree, a: seq<nat>)
    requires Reached(v, t, a)
    ensures multiset(EmittedAt(v, t, a)) <= multiset(Walk(v, t).outputs)
  {
    WalkComplete(v, t, a);
    WalkGathers(v, t);
    GatherContains(v, t, Walk(v, t).visits, a);
  }

  /** Each visited address's emissions, one list per visit: what each
      visitor invocation sends into the channel. */
  function Emissions<T>(v: Visitor<T>, t: Tree, vs: seq<seq<nat>>): (r: seq<seq<T>>)
    ensures |r| == |vs|
    ensures forall j :: 0 <= j < |vs| ==> r[j] == EmittedAt(v, t, vs[j])
  {
    seq(|vs|, j requires 0 <= j < |vs| => EmittedAt(v, t, vs[j]))
  }

  lemma {:induction false} FlattenEmissions<T>(v: Visitor<T>, t: Tree, vs: seq<seq<nat>>)
    ensures Channel.Flatten(Emissions(v, t, vs)) == Gather(v, t, vs)
    decreases |vs|
  {
    if vs != [] {
      assert Emissions(v, t, vs)[1..] == Emissions(v, t, vs[1..]);
      FlattenEmissions(v, t, vs[1..]);
    }
  }

  /** The parallel walk with its fan-in: every visit sends its emissions
      into the channel and the consumer drains it in an arbitrary arrival
      order. The collected list is a permutation of the sequential walk's
      outputs, so no schedule (and no thread count) changes its contents. */
  method WalkAndCollect<T>(v: Visitor<T>, t: Tree, schedule: seq<nat>) returns (collected: seq<T>)
    ensures multiset(collected) == multiset(Walk(v, t).outputs)
  {
    var log := Walk(v, t);
    collected := Channel.Drain(Emissions(v, t, log.visits), schedule);
    FlattenEmissions(v, t, log.visits);
    WalkGathers(v, t);
  }
}
