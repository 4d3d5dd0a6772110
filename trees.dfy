/** The nested array that `groupIn` and `columnMulti` build. An inner level
    maps bucket keys, in insertion order, to the next level; the level at
    the end of a key path is a leaf holding what was stored there.

    The reference cursor of the source (`$inner = &$inner[$v[$key]]`, then
    an append or an assignment through `$inner`) is modelled by `Update`:
    look up the child for the next key, create it when it is missing,
    descend, and rebuild the path on the way back. */
module Trees {
  import opened Values

  datatype Tree<L> = Node(children: seq<(Value, Tree<L>)>) | Leaf(content: L)

  function KeysOf<L>(cs: seq<(Value, Tree<L>)>): (ks: seq<Value>)
    ensures |ks| == |cs| && forall i :: 0 <= i < |cs| ==> ks[i] == cs[i].0
  {
    if cs == [] then [] else [cs[0].0] + KeysOf(cs[1..])
  }

  /** Position of the child with key `k`, if there is one (the first). */
  function IndexOf<L>(cs: seq<(Value, Tree<L>)>, k: Value): (o: Option<nat>)
    ensures o.Some? ==> o.value < |cs| && cs[o.value].0 == k && forall j :: 0 <= j < o.value ==> cs[j].0 != k
    ensures o.None? ==> forall j :: 0 <= j < |cs| ==> cs[j].0 != k
  {
    if cs == [] then None
    else if cs[0].0 == k then Some(0)
    else match IndexOf(cs[1..], k)
      case None => None
      case Some(i) => Some(i + 1)
  }

  function Child<L>(t: Tree<L>, k: Value): Option<Tree<L>> {
    match t
    case Leaf(_) => None
    case Node(cs) =>
      match IndexOf(cs, k)
      case None => None
      case Some(i) => Some(cs[i].1)
  }

  /** The sub-tree reached by following `path`, if every step exists. */
  function Descend<L>(t: Tree<L>, path: seq<Value>): Option<Tree<L>>
    decreases |path|
  {
    if path == [] then Some(t)
    else match Child(t, path[0])
      case None => None
      case Some(c) => Descend(c, path[1..])
  }

  /** What is stored at the end of `path`, if anything. */
  function At<L>(t: Tree<L>, path: seq<Value>): Option<L> {
    match Descend(t, path)
    case Some(Leaf(x)) => Some(x)
    case _ => None
  }

  /** The keys of the inner level at `path`, in insertion order; none where
      there is no inner level. */
  function KeysAt<L>(t: Tree<L>, path: seq<Value>): seq<Value> {
    match Descend(t, path)
    case Some(Node(cs)) => KeysOf(cs)
    case _ => []
  }

  /** Inserting a key into an insertion-ordered key list. */
  function AddKey(ks: seq<Value>, k: Value): seq<Value> {
    if k in ks then ks else ks + [k]
  }

  /** Walk `path` down `t`, creating every missing level, and replace what
      is stored at its end (`None` when nothing was) by `f` of it. An
      existing leaf on the way down is left alone: key paths of differing
      lengths are outside the model. */
  function Update<L>(t: Tree<L>, path: seq<Value>, f: Option<L> -> L): Tree<L>
    decreases |path|
  {
    if path == [] then Leaf(f(if t.Leaf? then Some(t.content) else None))
    else match t
      case Leaf(_) => t
      case Node(cs) =>
        var k := path[0];
        match IndexOf(cs, k)
        case Some(i) => Node(cs[i := (k, Update(cs[i].1, path[1..], f))])
        case None => Node(cs + [(k, Update(Node([]), path[1..], f))])
  }

  /** The leaf update of `$inner[] = $x`: append to the list, starting one
      if there was none. */
  function Push<X>(x: X): Option<seq<X>> -> seq<X> {
    (o: Option<seq<X>>) => (match o case Some(xs) => xs case None => []) + [x]
  }

  /** The leaf update of `$inner = $x`: overwrite. */
  function Store<X>(x: X): Option<X> -> X {
    o => x
  }

  ghost predicate DistinctKeys<L>(cs: seq<(Value, Tree<L>)>) {
    forall i, j :: 0 <= i < j < |cs| ==> cs[i].0 != cs[j].0
  }

  /** Every leaf is at depth `depth`, and keys within a level are distinct
      (the empty array counts as a tree of any depth). */
  ghost predicate Wf<L>(t: Tree<L>, depth: nat)
    decreases t
  {
    match t
    case Leaf(_) => depth == 0
    case Node(cs) =>
      if depth == 0 then cs == []
      else DistinctKeys(cs) && forall i :: 0 <= i < |cs| ==> Wf(cs[i].1, depth - 1)
  }

  /** All leaf lists concatenated, level by level in insertion order. */
  function Flatten<X>(t: Tree<seq<X>>): seq<X> {
    FlattenFrom(t, 0)
  }

  /** The concatenation for the children of `t` from position `i` on. */
  function FlattenFrom<X>(t: Tree<seq<X>>, i: nat): seq<X>
    decreases t, if t.Node? && i < |t.children| then |t.children| - i else 0
  {
    match t
    case Leaf(xs) => xs
    case Node(cs) => if i < |cs| then FlattenFrom(cs[i].1, 0) + FlattenFrom(t, i + 1) else []
  }

  // ---- lemmas about the child list ----

  lemma IndexOfSameKeys<L>(cs: seq<(Value, Tree<L>)>, ds: seq<(Value, Tree<L>)>, k: Value)
    requires |cs| == |ds| && forall j :: 0 <= j < |cs| ==> cs[j].0 == ds[j].0
    ensures IndexOf(cs, k) == IndexOf(ds, k)
  {
    var a, b := IndexOf(cs, k), IndexOf(ds, k);
    if a.Some? {
      assert ds[a.value].0 == k;
    }
    if b.Some? {
      assert cs[b.value].0 == k;
    }
  }

  lemma {:induction false} IndexOfAppend<L>(cs: seq<(Value, Tree<L>)>, k: Value, c: Tree<L>, k2: Value)
    requires IndexOf(cs, k).None?
    ensures IndexOf(cs + [(k, c)], k2) ==
      if IndexOf(cs, k2).Some? then IndexOf(cs, k2) else if k2 == k then Some(|cs|) else None
  {
    if cs != [] {
      assert (cs + [(k, c)])[1..] == cs[1..] + [(k, c)];
      if cs[0].0 != k2 {
        IndexOfAppend(cs[1..], k, c, k2);
      }
    }
  }

  lemma {:induction false} AtEmpty<L>(q: seq<Value>)
    ensures var e: Tree<L> := Node([]); At(e, q) == None && KeysAt(e, q) == []
  {
  }

  /** One step of `At` and `KeysAt` down a non-empty path. */
  lemma AtStep<L>(t: Tree<L>, q: seq<Value>)
    requires q != []
    ensures At(t, q) == match Child(t, q[0]) case None => None case Some(c) => At(c, q[1..])
    ensures KeysAt(t, q) == match Child(t, q[0]) case None => [] case Some(c) => KeysAt(c, q[1..])
  {
  }

  // ---- what Update does ----

  /** Update keeps the shape: all leaves at the path's depth, keys distinct. */
  lemma {:induction false} UpdateWf<L>(t: Tree<L>, p: seq<Value>, f: Option<L> -> L)
    requires Wf(t, |p|)
    ensures Wf(Update(t, p, f), |p|)
    decreases |p|
  {
    if p != [] {
      var cs := t.children;
      var k := p[0];
      match IndexOf(cs, k)
      case Some(i) =>
        UpdateWf(cs[i].1, p[1..], f);
        var ds := cs[i := (k, Update(cs[i].1, p[1..], f))];
        assert forall j :: 0 <= j < |ds| ==> ds[j].0 == cs[j].0;
      case None =>
        UpdateWf(Node([]), p[1..], f);
    }
  }

  /** The child for `k`, or the empty array PHP creates when it is missing. */
  function Sub<L>(t: Tree<L>, k: Value): Tree<L> {
    match Child(t, k)
    case Some(c) => c
    case None => Node([])
  }

  /** One level of Update: the child on the path is updated (created first
      if missing), every other child is unchanged. */
  lemma ChildUpdate<L>(t: Tree<L>, p: seq<Value>, f: Option<L> -> L, k2: Value)
    requires t.Node? && p != []
    ensures Child(Update(t, p, f), k2) ==
      if k2 == p[0] then Some(Update(Sub(t, p[0]), p[1..], f)) else Child(t, k2)
  {
    var cs := t.children;
    var k := p[0];
    match IndexOf(cs, k)
    case Some(i) =>
      var ds := cs[i := (k, Update(cs[i].1, p[1..], f))];
      IndexOfSameKeys(cs, ds, k2);
    case None =>
      IndexOfAppend(cs, k, Update(Node([]), p[1..], f), k2);
  }

  lemma WfSub<L>(t: Tree<L>, d: nat, k: Value)
    requires Wf(t, d + 1)
    ensures Wf(Sub(t, k), d)
  {
  }

  /** Update changes what is stored at `p`, as `f` says, and nothing else. */
  lemma {:induction false} AtUpdate<L>(t: Tree<L>, p: seq<Value>, f: Option<L> -> L, q: seq<Value>)
    requires Wf(t, |p|)
    ensures At(Update(t, p, f), q) == if q == p then Some(f(At(t, p))) else At(t, q)
    decreases |p|
  {
    var u := Update(t, p, f);
    if p == [] {
      if q != [] {
        AtStep(u, q);
        AtStep(t, q);
      }
    } else if q != [] {
      var k, p', q' := p[0], p[1..], q[1..];
      var s := Sub(t, k);
      AtStep(u, q);
      AtStep(t, q);
      ChildUpdate(t, p, f, q[0]);
      if q[0] == k {
        assert q == p <==> q' == p' by {
          assert p == [k] + p' && q == [k] + q';
        }
        WfSub(t, |p'|, k);
        AtUpdate(s, p', f, q');
        AtStep(t, p);
        AtEmpty<L>(p');
        AtEmpty<L>(q');
      }
    }
  }

  /** Stepping one level down a key path and a candidate prefix of it. */
  lemma PrefixStep(p: seq<Value>, q: seq<Value>)
    requires p != [] && q != []
    ensures (|q| < |p| && q == p[..|q|]) <==> (q[0] == p[0] && |q[1..]| < |p[1..]| && q[1..] == p[1..][..|q| - 1])
    ensures |q| < |p| ==> p[|q|] == p[1..][|q| - 1]
  {
    if q[0] == p[0] && |q[1..]| < |p[1..]| && q[1..] == p[1..][..|q| - 1] {
      assert q == [q[0]] + q[1..];
      assert p[..|q|] == [p[0]] + p[1..][..|q| - 1];
    }
  }

  lemma KeysOfReplace<L>(cs: seq<(Value, Tree<L>)>, i: nat, e: (Value, Tree<L>))
    requires i < |cs| && e.0 == cs[i].0
    ensures KeysOf(cs[i := e]) == KeysOf(cs)
  {
    var ks, ks' := KeysOf(cs), KeysOf(cs[i := e]);
    assert forall j :: 0 <= j < |cs| ==> ks'[j] == ks[j];
  }

  lemma KeysOfAppend<L>(cs: seq<(Value, Tree<L>)>, e: (Value, Tree<L>))
    ensures KeysOf(cs + [e]) == KeysOf(cs) + [e.0]
  {
    var ks, ks' := KeysOf(cs), KeysOf(cs + [e]);
    assert forall j :: 0 <= j < |cs| ==> ks'[j] == ks[j];
  }

  /** The root level: Update adds the first key of `p`. */
  lemma KeysAtUpdateRoot<L>(t: Tree<L>, p: seq<Value>, f: Option<L> -> L)
    requires t.Node? && p != []
    ensures KeysAt(Update(t, p, f), []) == AddKey(KeysAt(t, []), p[0])
  {
    var cs := t.children;
    var k := p[0];
    match IndexOf(cs, k)
    case Some(i) =>
      var e := (k, Update(cs[i].1, p[1..], f));
      assert Update(t, p, f) == Node(cs[i := e]);
      KeysOfReplace(cs, i, e);
      assert KeysOf(cs)[i] == k;
    case None =>
      var e := (k, Update(Node([]), p[1..], f));
      assert Update(t, p, f) == Node(cs + [e]);
      KeysOfAppend(cs, e);
      assert k !in KeysOf(cs);
  }

  /** Update adds the next key of `p` to each level it passes, in
      insertion order, and leaves the key lists of all other levels alone. */
  lemma {:induction false} KeysAtUpdate<L>(t: Tree<L>, p: seq<Value>, f: Option<L> -> L, q: seq<Value>)
    requires Wf(t, |p|)
    ensures KeysAt(Update(t, p, f), q) ==
      if |q| < |p| && q == p[..|q|] then AddKey(KeysAt(t, q), p[|q|]) else KeysAt(t, q)
    decreases |p|
  {
    var u := Update(t, p, f);
    if p == [] {
      if q != [] {
        AtStep(u, q);
        AtStep(t, q);
      }
    } else if q == [] {
      KeysAtUpdateRoot(t, p, f);
    } else {
      var k, p', q' := p[0], p[1..], q[1..];
      var s := Sub(t, k);
      AtStep(u, q);
      AtStep(t, q);
      PrefixStep(p, q);
      ChildUpdate(t, p, f, q[0]);
      if q[0] == k {
        WfSub(t, |p'|, k);
        KeysAtUpdate(s, p', f, q');
        AtEmpty<L>(q');
      }
    }
  }

  lemma {:induction false} FlattenFromAppend<X>(cs: seq<(Value, Tree<seq<X>>)>, k: Value, c: Tree<seq<X>>, i: nat)
    requires i <= |cs|
    ensures FlattenFrom(Node(cs + [(k, c)]), i) == FlattenFrom(Node(cs), i) + Flatten(c)
    decreases |cs| - i
  {
    if i < |cs| {
      FlattenFromAppend(cs, k, c, i + 1);
    }
  }

  /** Replacing child `j` (keeping the others) swaps its leaf values for
      those of the replacement. */
  lemma {:induction false} FlattenFromReplace<X>(cs: seq<(Value, Tree<seq<X>>)>, ds: seq<(Value, Tree<seq<X>>)>, j: nat, i: nat)
    requires i <= j < |cs| == |ds|
    requires forall m :: 0 <= m < |cs| && m != j ==> ds[m].1 == cs[m].1
    ensures multiset(FlattenFrom(Node(ds), i)) + multiset(Flatten(cs[j].1)) ==
            multiset(FlattenFrom(Node(cs), i)) + multiset(Flatten(ds[j].1))
    decreases j - i
  {
    var tail, tail' := FlattenFrom(Node(cs), i + 1), FlattenFrom(Node(ds), i + 1);
    var was, now := multiset(Flatten(cs[j].1)), multiset(Flatten(ds[j].1));
    assert FlattenFrom(Node(cs), i) == Flatten(cs[i].1) + tail;
    assert FlattenFrom(Node(ds), i) == Flatten(ds[i].1) + tail';
    if i < j {
      FlattenFromReplace(cs, ds, j, i + 1);
      MultisetShift(multiset(Flatten(cs[i].1)), multiset(tail), multiset(tail'), was, now);
    } else {
      FlattenFromSame(cs, ds, i + 1);
      MultisetSwap(now, was, multiset(tail));
    }
  }

  lemma MultisetSwap<X>(a: multiset<X>, b: multiset<X>, t: multiset<X>)
    ensures (a + t) + b == (b + t) + a
  {
    forall e ensures ((a + t) + b)[e] == ((b + t) + a)[e] {
    }
  }

  lemma MultisetShift<X>(h: multiset<X>, t: multiset<X>, t': multiset<X>, was: multiset<X>, now: multiset<X>)
    requires t' + was == t + now
    ensures (h + t') + was == (h + t) + now
  {
    forall e ensures ((h + t') + was)[e] == ((h + t) + now)[e] {
      assert (t' + was)[e] == (t + now)[e];
    }
  }

  lemma {:induction false} FlattenFromSame<X>(cs: seq<(Value, Tree<seq<X>>)>, ds: seq<(Value, Tree<seq<X>>)>, i: nat)
    requires |cs| == |ds| && forall j :: i <= j < |cs| ==> cs[j].1 == ds[j].1
    ensures FlattenFrom(Node(cs), i) == FlattenFrom(Node(ds), i)
    decreases |cs| - i
  {
    if i < |cs| {
      FlattenFromSame(cs, ds, i + 1);
    }
  }

  lemma MultisetCancel<X>(a: multiset<X>, b: multiset<X>, c: multiset<X>)
    requires a + b == c + b
    ensures a == c
  {
    forall e ensures a[e] == c[e] {
      assert (a + b)[e] == (c + b)[e];
    }
  }

  /** Appending at the end of a path adds exactly one element to the
      concatenation of all leaf lists. */
  lemma {:induction false} FlattenPush<X>(t: Tree<seq<X>>, p: seq<Value>, x: X)
    requires Wf(t, |p|)
    ensures multiset(Flatten(Update(t, p, Push(x)))) == multiset(Flatten(t)) + multiset{x}
    decreases |p|
  {
    if p != [] {
      var cs := t.children;
      var k := p[0];
      match IndexOf(cs, k)
      case Some(i) =>
        var c := Update(cs[i].1, p[1..], Push(x));
        assert Update(t, p, Push(x)) == Node(cs[i := (k, c)]);
        FlattenPush(cs[i].1, p[1..], x);
        FlattenFromReplace(cs, cs[i := (k, c)], i, 0);
        MultisetCancel(multiset(Flatten(Update(t, p, Push(x)))), multiset(Flatten(cs[i].1)),
                       multiset(Flatten(t)) + multiset{x});
      case None =>
        assert Update(t, p, Push(x)) == Node(cs + [(k, Update(Node([]), p[1..], Push(x)))]);
        FlattenPush(Node([]), p[1..], x);
        FlattenFromAppend(cs, k, Update(Node([]), p[1..], Push(x)), 0);
    }
  }
}
