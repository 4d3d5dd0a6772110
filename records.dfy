/** The two record-level functions of ArrayFunctions: `whiteList`
    (restrict a record to a set of field names) and `coalesceKeys` (the
    first candidate field that is set). */
module Records {
  import opened Values

  /** `w` is `s` with some entries left out, the rest in their order. */
  ghost predicate IsSubsequence<T>(w: seq<T>, s: seq<T>)
    decreases |s|
  {
    w == [] || (s != [] && (IsSubsequence(w, s[1..]) || (w[0] == s[0] && IsSubsequence(w[1..], s[1..]))))
  }

  /** `array_intersect_key($r, array_flip($whitelist))`: the entries of `r`
      whose field name is in `whitelist`, in the order of `r`. */
  function WhiteList(r: Record, whitelist: seq<string>): (w: Record)
    ensures IsSubsequence(w, r)
    ensures forall e :: e in w <==> e in r && e.0 in whitelist
  {
    if r == [] then []
    else
      var rest := WhiteList(r[1..], whitelist);
      assert r == [r[0]] + r[1..];
      if r[0].0 in whitelist then [r[0]] + rest else rest
  }

  /** Every field of the result reads as it does in the record when it is
      whitelisted, and is absent otherwise. */
  lemma {:induction false} WhiteListLookup(r: Record, whitelist: seq<string>, k: string)
    ensures Lookup(WhiteList(r, whitelist), k) == if k in whitelist then Lookup(r, k) else None
  {
    if r != [] {
      WhiteListLookup(r[1..], whitelist, k);
    }
  }

  /** An empty whitelist gives the empty array. */
  lemma {:induction false} WhiteListEmpty(r: Record)
    ensures WhiteList(r, []) == []
  {
    if r != [] {
      WhiteListEmpty(r[1..]);
    }
  }

  /** A whitelist naming every field of the record gives the record back. */
  lemma {:induction false} WhiteListAll(r: Record, whitelist: seq<string>)
    requires forall i :: 0 <= i < |r| ==> r[i].0 in whitelist
    ensures WhiteList(r, whitelist) == r
  {
    if r != [] {
      WhiteListAll(r[1..], whitelist);
    }
  }

  /** Filtering twice by the same whitelist is filtering once. */
  lemma {:induction false} WhiteListIdempotent(r: Record, whitelist: seq<string>)
    ensures WhiteList(WhiteList(r, whitelist), whitelist) == WhiteList(r, whitelist)
  {
    if r != [] {
      WhiteListIdempotent(r[1..], whitelist);
    }
  }

  /** `coalesceKeys`: the value of the first candidate field that is set
      (present and not null), scanning `keys` in order; `defaultValue` when
      none is. */
  method CoalesceKeys(r: Record, keys: seq<string>, defaultValue: Value := Null) returns (v: Value)
    ensures (forall i :: 0 <= i < |keys| ==> !IsSet(r, keys[i])) ==> v == defaultValue
    ensures (exists i :: 0 <= i < |keys| && IsSet(r, keys[i])) ==>
      exists i :: 0 <= i < |keys| && IsSet(r, keys[i]) && v == Get(r, keys[i]) &&
        forall j :: 0 <= j < i ==> !IsSet(r, keys[j])
  {
    var n := 0;
    while n < |keys|
      invariant n <= |keys|
      invariant forall j :: 0 <= j < n ==> !IsSet(r, keys[j])
    {
      if IsSet(r, keys[n]) {
        return Get(r, keys[n]);
      }
      n := n + 1;
    }
    return defaultValue;
  }
}
