/** `groupIn` and `columnMulti`: multi-level grouping of records by the
    values of a list of key fields.

    Both run one loop over the records; for each record the reference cursor
    walks down the result by the record's values for the key fields,
    creating missing levels, and at the end either appends the selected
    value to a list (`groupIn`) or overwrites what is there (`columnMulti`).
    The functional specification is the left fold `Grow` of `Update` over
    the records; the methods are proved to compute it, and the lemmas say
    what the fold's result holds. */
module Grouping {
  import opened Values
  import opened Records
  import opened Trees

  /** `$value_key`: null, one field name, or a list of field names. */
  datatype Selector = Whole | Field(name: string) | Fields(names: seq<string>)

  /** `$keys`: one field name or a list of them. */
  datatype KeySpec = One(name: string) | Many(names: seq<string>)

  /** What a record contributes to a leaf: a field value or a (sub-)record. */
  datatype Item = Scalar(value: Value) | Row(fields: Record)

  /** The `(array)$keys` cast. */
  function KeyList(keys: KeySpec): seq<string> {
    match keys
    case One(k) => [k]
    case Many(ks) => ks
  }

  /** The selected value of a record: the record itself, `$v[$value_key]`,
      or `array_intersect_key($v, array_flip($value_key))`. */
  function Select(r: Record, sel: Selector): Item {
    match sel
    case Whole => Row(r)
    case Field(k) => Scalar(Get(r, k))
    case Fields(ks) => Row(WhiteList(r, ks))
  }

  /** The bucket keys `$v[$key]` the cursor follows, one per key field; a
      missing field gives the null bucket. */
  function KeyPath(r: Record, ks: seq<string>): (p: seq<Value>)
    ensures |p| == |ks| && forall j :: 0 <= j < |ks| ==> p[j] == Get(r, ks[j])
  {
    seq(|ks|, j requires 0 <= j < |ks| => Get(r, ks[j]))
  }

  /** The result after the records `rs`, one `Update` per record in input
      order, with the leaf update `f` of each record. */
  function Grow<L>(rs: seq<Record>, ks: seq<string>, f: Record -> Option<L> -> L): Tree<L>
    decreases |rs|
  {
    if rs == [] then Node([])
    else
      var n := |rs| - 1;
      Update(Grow(rs[..n], ks, f), KeyPath(rs[n], ks), f(rs[n]))
  }

  function GroupOp(sel: Selector): Record -> Option<seq<Item>> -> seq<Item> {
    r => Push(Select(r, sel))
  }

  function ColumnOp(sel: Selector): Record -> Option<Item> -> Item {
    r => Store(Select(r, sel))
  }

  /** What `groupIn` returns. */
  function GroupSpec(rs: seq<Record>, ks: seq<string>, sel: Selector): Tree<seq<Item>> {
    Grow(rs, ks, GroupOp(sel))
  }

  /** What `columnMulti` returns. */
  function ColumnSpec(rs: seq<Record>, ks: seq<string>, sel: Selector): Tree<Item> {
    Grow(rs, ks, ColumnOp(sel))
  }

  // ---- reference definitions, independent of the tree ----

  /** The selected values of the records whose key path is `q`, in input order. */
  function Collect(rs: seq<Record>, ks: seq<string>, q: seq<Value>, sel: Selector): seq<Item>
    decreases |rs|
  {
    if rs == [] then []
    else
      var n := |rs| - 1;
      Collect(rs[..n], ks, q, sel) + if KeyPath(rs[n], ks) == q then [Select(rs[n], sel)] else []
  }

  /** The position of the last record whose key path is `q`. */
  function LastWith(rs: seq<Record>, ks: seq<string>, q: seq<Value>): (o: Option<nat>)
    ensures o.Some? ==> o.value < |rs| && KeyPath(rs[o.value], ks) == q &&
                        forall j :: o.value < j < |rs| ==> KeyPath(rs[j], ks) != q
    ensures o.None? ==> forall j :: 0 <= j < |rs| ==> KeyPath(rs[j], ks) != q
    decreases |rs|
  {
    if rs == [] then None
    else
      var n := |rs| - 1;
      if KeyPath(rs[n], ks) == q then Some(n)
      else
        assert forall j :: 0 <= j < n ==> rs[..n][j] == rs[j];
        LastWith(rs[..n], ks, q)
  }

  /** The next bucket key of every record whose key path extends `q`, in input order. */
  function NextKeys(rs: seq<Record>, ks: seq<string>, q: seq<Value>): seq<Value>
    decreases |rs|
  {
    if rs == [] then []
    else
      var n := |rs| - 1;
      var p := KeyPath(rs[n], ks);
      NextKeys(rs[..n], ks, q) + if |q| < |p| && q == p[..|q|] then [p[|q|]] else []
  }

  /** `s` without repetitions, each element where it first occurs. */
  function Dedup(s: seq<Value>): (d: seq<Value>)
    ensures forall x :: x in d <==> x in s
    ensures forall i, j :: 0 <= i < j < |d| ==> d[i] != d[j]
    decreases |s|
  {
    if s == [] then [] else AddKey(Dedup(s[..|s| - 1]), s[|s| - 1])
  }

  /** The values each record contributes, in input order. */
  function Selections(rs: seq<Record>, sel: Selector): seq<Item> {
    seq(|rs|, i requires 0 <= i < |rs| => Select(rs[i], sel))
  }

  // ---- the selector ----

  /** `null` keeps the record, a field name reads that field (null when it
      is missing), and a list of names keeps exactly the record's entries
      with those names, in the record's order. */
  lemma SelectMeaning(r: Record, sel: Selector)
    ensures sel.Whole? ==> Select(r, sel) == Row(r)
    ensures sel.Field? ==> Select(r, sel) == Scalar(Get(r, sel.name)) &&
                           (Lookup(r, sel.name).None? ==> Select(r, sel) == Scalar(Null))
    ensures sel.Fields? ==>
      Select(r, sel).Row? && IsSubsequence(Select(r, sel).fields, r) &&
      (forall e :: e in Select(r, sel).fields <==> e in r && e.0 in sel.names) &&
      forall k :: Lookup(Select(r, sel).fields, k) == if k in sel.names then Lookup(r, k) else None
  {
    if sel.Fields? {
      forall k ensures Lookup(Select(r, sel).fields, k) == if k in sel.names then Lookup(r, k) else None {
        WhiteListLookup(r, sel.names, k);
      }
    }
  }

  /** A single key field is the one-element key list. */
  lemma StringKeyIsOnePath(rs: seq<Record>, k: string, sel: Selector)
    ensures GroupSpec(rs, KeyList(One(k)), sel) == GroupSpec(rs, KeyList(Many([k])), sel)
    ensures ColumnSpec(rs, KeyList(One(k)), sel) == ColumnSpec(rs, KeyList(Many([k])), sel)
  {
  }

  // ---- the fold, for either leaf update ----

  /** The last record is one more cursor walk on the result of the others. */
  lemma GrowSnoc<L>(rs: seq<Record>, ks: seq<string>, f: Record -> Option<L> -> L)
    requires rs != []
    ensures Grow(rs, ks, f) == Update(Grow(rs[..|rs| - 1], ks, f), KeyPath(rs[|rs| - 1], ks), f(rs[|rs| - 1]))
  {
  }

  lemma {:induction false} GrowWf<L>(rs: seq<Record>, ks: seq<string>, f: Record -> Option<L> -> L)
    ensures Wf(Grow(rs, ks, f), |ks|)
    decreases |rs|
  {
    if rs != [] {
      var n := |rs| - 1;
      GrowSnoc(rs, ks, f);
      GrowWf(rs[..n], ks, f);
      UpdateWf(Grow(rs[..n], ks, f), KeyPath(rs[n], ks), f(rs[n]));
    }
  }

  /** Some record has key path `q`. */
  ghost predicate Occurs(rs: seq<Record>, ks: seq<string>, q: seq<Value>) {
    exists i :: 0 <= i < |rs| && KeyPath(rs[i], ks) == q
  }

  lemma OccursSnoc(rs: seq<Record>, ks: seq<string>, q: seq<Value>)
    requires rs != []
    ensures Occurs(rs, ks, q) <==> Occurs(rs[..|rs| - 1], ks, q) || KeyPath(rs[|rs| - 1], ks) == q
  {
    var n := |rs| - 1;
    assert forall i :: 0 <= i < n ==> rs[..n][i] == rs[i];
  }

  /** The full key paths of the result are exactly the key paths of the records. */
  lemma {:induction false} GrowPaths<L>(rs: seq<Record>, ks: seq<string>, f: Record -> Option<L> -> L, q: seq<Value>)
    ensures At(Grow(rs, ks, f), q).Some? <==> Occurs(rs, ks, q)
    decreases |rs|
  {
    if rs == [] {
      AtEmpty<L>(q);
    } else {
      var n := |rs| - 1;
      var init := rs[..n];
      var t0 := Grow(init, ks, f);
      GrowSnoc(rs, ks, f);
      GrowWf(init, ks, f);
      AtUpdate(t0, KeyPath(rs[n], ks), f(rs[n]), q);
      GrowPaths(init, ks, f, q);
      OccursSnoc(rs, ks, q);
    }
  }

  /** The keys of every inner level are the next bucket keys of the records
      below it, each once, in the order they were first seen. */
  lemma {:induction false} GrowKeys<L>(rs: seq<Record>, ks: seq<string>, f: Record -> Option<L> -> L, q: seq<Value>)
    ensures KeysAt(Grow(rs, ks, f), q) == Dedup(NextKeys(rs, ks, q))
    decreases |rs|
  {
    if rs == [] {
      AtEmpty<L>(q);
    } else {
      var n := |rs| - 1;
      var init := rs[..n];
      var p := KeyPath(rs[n], ks);
      var t0, s := Grow(init, ks, f), NextKeys(init, ks, q);
      var deeper := |q| < |p| && q == p[..|q|];
      assert KeysAt(Grow(rs, ks, f), q) == if deeper then AddKey(KeysAt(t0, q), p[|q|]) else KeysAt(t0, q) by {
        GrowSnoc(rs, ks, f);
        GrowWf(init, ks, f);
        KeysAtUpdate(t0, p, f(rs[n]), q);
      }
      assert KeysAt(t0, q) == Dedup(s) by {
        GrowKeys(init, ks, f, q);
      }
      assert Dedup(NextKeys(rs, ks, q)) == if deeper then AddKey(Dedup(s), p[|q|]) else Dedup(s) by {
        if deeper {
          assert NextKeys(rs, ks, q) == s + [p[|q|]];
          DedupSnoc(s, p[|q|]);
        } else {
          assert NextKeys(rs, ks, q) == s;
        }
      }
    }
  }

  lemma DedupSnoc(s: seq<Value>, x: Value)
    ensures Dedup(s + [x]) == AddKey(Dedup(s), x)
  {
    assert (s + [x])[..|s|] == s;
  }

  /** Each `d[i]` is seen in `s` before `d[j]` is first seen, for `i < j`. */
  lemma {:induction false} DedupOrder(s: seq<Value>, i: nat, j: nat)
    requires i < j < |Dedup(s)|
    ensures exists a :: 0 <= a < |s| && s[a] == Dedup(s)[i] && Dedup(s)[j] !in s[..a]
    decreases |s|
  {
    var n := |s| - 1;
    var init := s[..n];
    var d, d0 := Dedup(s), Dedup(init);
    if j < |d0| {
      assert d[i] == d0[i] && d[j] == d0[j];
      DedupOrder(init, i, j);
      var a :| 0 <= a < |init| && init[a] == d0[i] && d0[j] !in init[..a];
      assert s[..a] == init[..a];
    } else {
      assert d == d0 + [s[n]] && d[j] == s[n] && s[n] !in init;
      assert d[i] == d0[i] && d0[i] in init;
      var a :| 0 <= a < |init| && init[a] == d0[i];
      assert s[..a] == init[..a];
      assert forall x :: x in init[..a] ==> x in init;
    }
  }

  // ---- groupIn ----

  /** The leaf at `q` exists exactly when some record has key path `q`, and
      lists the selected values of those records, in input order. */
  lemma {:induction false} GroupLeaves(rs: seq<Record>, ks: seq<string>, sel: Selector, q: seq<Value>)
    ensures At(GroupSpec(rs, ks, sel), q) ==
      if Collect(rs, ks, q, sel) == [] then None else Some(Collect(rs, ks, q, sel))
    decreases |rs|
  {
    if rs == [] {
      AtEmpty<seq<Item>>(q);
    } else {
      var n := |rs| - 1;
      var init := rs[..n];
      var t0, p, x := GroupSpec(init, ks, sel), KeyPath(rs[n], ks), Select(rs[n], sel);
      GrowSnoc(rs, ks, GroupOp(sel));
      assert GroupOp(sel)(rs[n]) == Push(x);
      assert Collect(rs, ks, q, sel) == Collect(init, ks, q, sel) + if p == q then [x] else [];
      GrowWf(init, ks, GroupOp(sel));
      AtUpdate(t0, p, Push(x), q);
      GroupLeaves(init, ks, sel, q);
      var c0 := Collect(init, ks, q, sel);
      if p == q {
        assert Push(x)(At(t0, q)) == c0 + [x];
        assert Collect(rs, ks, q, sel) == c0 + [x] != [];
      } else {
        assert Collect(rs, ks, q, sel) == c0;
      }
    }
  }

  /** `Collect` is empty exactly when no record has key path `q`. */
  lemma {:induction false} CollectEmpty(rs: seq<Record>, ks: seq<string>, q: seq<Value>, sel: Selector)
    ensures Collect(rs, ks, q, sel) == [] <==> !Occurs(rs, ks, q)
    decreases |rs|
  {
    if rs != [] {
      CollectEmpty(rs[..|rs| - 1], ks, q, sel);
      OccursSnoc(rs, ks, q);
    }
  }

  lemma SelectionsSnoc(rs: seq<Record>, sel: Selector)
    requires rs != []
    ensures multiset(Selections(rs, sel)) ==
            multiset(Selections(rs[..|rs| - 1], sel)) + multiset{Select(rs[|rs| - 1], sel)}
  {
    assert Selections(rs, sel) == Selections(rs[..|rs| - 1], sel) + [Select(rs[|rs| - 1], sel)];
  }

  /** All leaf lists together hold the records' selected values, as a multiset. */
  lemma {:induction false} GroupBag(rs: seq<Record>, ks: seq<string>, sel: Selector)
    ensures multiset(Flatten(GroupSpec(rs, ks, sel))) == multiset(Selections(rs, sel))
    decreases |rs|
  {
    if rs != [] {
      var n := |rs| - 1;
      var init := rs[..n];
      var t0, p, x := GroupSpec(init, ks, sel), KeyPath(rs[n], ks), Select(rs[n], sel);
      GrowSnoc(rs, ks, GroupOp(sel));
      assert GroupOp(sel)(rs[n]) == Push(x);
      assert multiset(Flatten(Update(t0, p, Push(x)))) == multiset(Selections(init, sel)) + multiset{x} by {
        GroupBag(init, ks, sel);
        GrowWf(init, ks, GroupOp(sel));
        FlattenPush(t0, p, x);
      }
      SelectionsSnoc(rs, sel);
    }
  }

  /** Every record contributes exactly one leaf entry: all leaf lists
      together hold the records' selected values, no more and no fewer. */
  lemma GroupFlatten(rs: seq<Record>, ks: seq<string>, sel: Selector)
    ensures multiset(Flatten(GroupSpec(rs, ks, sel))) == multiset(Selections(rs, sel))
    ensures |Flatten(GroupSpec(rs, ks, sel))| == |rs|
  {
    var all := Flatten(GroupSpec(rs, ks, sel));
    GroupBag(rs, ks, sel);
    assert |multiset(all)| == |all|;
    assert |multiset(Selections(rs, sel))| == |Selections(rs, sel)| == |rs|;
  }

  /** `groupIn($array, $keys, $value_key)`. */
  method GroupIn(records: seq<Record>, keys: KeySpec, valueKey: Selector := Whole)
    returns (result: Tree<seq<Item>>)
    ensures result == GroupSpec(records, KeyList(keys), valueKey)
    ensures Wf(result, |KeyList(keys)|)
    ensures forall q :: At(result, q) ==
                          if Collect(records, KeyList(keys), q, valueKey) == [] then None
                          else Some(Collect(records, KeyList(keys), q, valueKey))
    ensures forall q :: KeysAt(result, q) == Dedup(NextKeys(records, KeyList(keys), q))
    ensures multiset(Flatten(result)) == multiset(Selections(records, valueKey))
    ensures |Flatten(result)| == |records|
  {
    var ks := KeyList(keys);
    result := Node([]);
    for i := 0 to |records|
      invariant result == GroupSpec(records[..i], ks, valueKey)
    {
      var v := records[i];
      assert records[..i + 1][..i] == records[..i];
      result := Update(result, KeyPath(v, ks), Push(Select(v, valueKey)));
    }
    assert records[..|records|] == records;
    GrowWf(records, ks, GroupOp(valueKey));
    forall q ensures At(result, q) ==
      (if Collect(records, ks, q, valueKey) == [] then None else Some(Collect(records, ks, q, valueKey)))
    {
      GroupLeaves(records, ks, valueKey, q);
    }
    forall q ensures KeysAt(result, q) == Dedup(NextKeys(records, ks, q)) {
      GrowKeys(records, ks, GroupOp(valueKey), q);
    }
    GroupFlatten(records, ks, valueKey);
  }

  // ---- columnMulti ----

  /** The leaf at `q` holds the selected value of the last record with key
      path `q`; earlier records with that path were overwritten. */
  lemma {:induction false} ColumnLeaves(rs: seq<Record>, ks: seq<string>, sel: Selector, q: seq<Value>)
    ensures At(ColumnSpec(rs, ks, sel), q) ==
      match LastWith(rs, ks, q)
      case None => None
      case Some(i) => Some(Select(rs[i], sel))
    decreases |rs|
  {
    if rs == [] {
      AtEmpty<Item>(q);
    } else {
      var n := |rs| - 1;
      var init := rs[..n];
      var t0, p, x := ColumnSpec(init, ks, sel), KeyPath(rs[n], ks), Select(rs[n], sel);
      assert At(ColumnSpec(rs, ks, sel), q) == if q == p then Some(x) else At(t0, q) by {
        GrowSnoc(rs, ks, ColumnOp(sel));
        assert ColumnOp(sel)(rs[n]) == Store(x);
        GrowWf(init, ks, ColumnOp(sel));
        AtUpdate(t0, p, Store(x), q);
      }
      ColumnLeaves(init, ks, sel, q);
      var o := LastWith(init, ks, q);
      assert LastWith(rs, ks, q) == if p == q then Some(n) else o;
      if p != q && o.Some? {
        assert init[o.value] == rs[o.value];
      }
    }
  }

  /** The record added last wins at its own key path. */
  lemma ColumnLastWins(rs: seq<Record>, r: Record, ks: seq<string>, sel: Selector)
    ensures At(ColumnSpec(rs + [r], ks, sel), KeyPath(r, ks)) == Some(Select(r, sel))
  {
    var rs' := rs + [r];
    assert rs'[..|rs|] == rs;
    GrowSnoc(rs', ks, ColumnOp(sel));
    GrowWf(rs, ks, ColumnOp(sel));
    AtUpdate(ColumnSpec(rs, ks, sel), KeyPath(r, ks), ColumnOp(sel)(r), KeyPath(r, ks));
  }

  /** `columnMulti($array, $keys, $value_key)`, for a non-empty key list. */
  method ColumnMulti(records: seq<Record>, keys: KeySpec, valueKey: Selector := Whole)
    returns (result: Tree<Item>)
    requires |KeyList(keys)| >= 1
    ensures result == ColumnSpec(records, KeyList(keys), valueKey)
    ensures Wf(result, |KeyList(keys)|)
    ensures forall q :: At(result, q).Some? <==> Occurs(records, KeyList(keys), q)
    ensures forall q :: At(result, q) ==
                          match LastWith(records, KeyList(keys), q)
                          case None => None
                          case Some(i) => Some(Select(records[i], valueKey))
    ensures forall q :: KeysAt(result, q) == Dedup(NextKeys(records, KeyList(keys), q))
  {
    var ks := KeyList(keys);
    result := Node([]);
    for i := 0 to |records|
      invariant result == ColumnSpec(records[..i], ks, valueKey)
    {
      var v := records[i];
      assert records[..i + 1][..i] == records[..i];
      result := Update(result, KeyPath(v, ks), Store(Select(v, valueKey)));
    }
    assert records[..|records|] == records;
    GrowWf(records, ks, ColumnOp(valueKey));
    forall q ensures At(result, q).Some? <==> Occurs(records, ks, q) {
      GrowPaths(records, ks, ColumnOp(valueKey), q);
    }
    forall q ensures At(result, q) ==
      (match LastWith(records, ks, q)
       case None => None
       case Some(i) => Some(Select(records[i], valueKey)))
    {
      ColumnLeaves(records, ks, valueKey, q);
    }
    forall q ensures KeysAt(result, q) == Dedup(NextKeys(records, ks, q)) {
      GrowKeys(records, ks, ColumnOp(valueKey), q);
    }
  }
}
