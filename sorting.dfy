/** `sortByColumn`: a key-preserving sort of an array of records, by one
    field of each record (`uasort`) or by the array keys (`uksort`),
    ascending or descending.

    PHP 8 sorts stably: when the comparison callback reports a tie, the
    entries keep the order they had. The model sorts a copy of the entries
    in place by insertion sort, comparing by the callback and breaking ties
    by original position, which is what makes the sort stable. */
module Sorting {
  import opened Values

  /** An entry of the array being sorted: its key and its record. */
  type Entry = (Value, Record)

  /** What is compared: `$a[$key]` when a field is given, else the array key. */
  function SortKey(e: Entry, key: Option<string>): Value {
    match key
    case Some(k) => Get(e.1, k)
    case None => e.0
  }

  /** The comparison callback handed to `uasort`/`uksort`. */
  function Compare(x: Entry, y: Entry, key: Option<string>, desc: bool): int {
    if desc then Cmp(SortKey(y, key), SortKey(x, key)) else Cmp(SortKey(x, key), SortKey(y, key))
  }

  /** Entry `i` of `a` goes before entry `j`: the callback puts it first, or
      it is a tie and `i` came first. */
  predicate Before(a: seq<Entry>, key: Option<string>, desc: bool, i: nat, j: nat) {
    i < |a| && j < |a| &&
    var c := Compare(a[i], a[j], key, desc);
    c < 0 || (c == 0 && i < j)
  }

  lemma CompareFlip(x: Entry, y: Entry, key: Option<string>, desc: bool)
    ensures Compare(y, x, key, desc) == -Compare(x, y, key, desc)
  {
    CmpFlip(SortKey(x, key), SortKey(y, key));
  }

  lemma CompareTrans(x: Entry, y: Entry, z: Entry, key: Option<string>, desc: bool)
    requires Compare(x, y, key, desc) <= 0 && Compare(y, z, key, desc) <= 0
    ensures Compare(x, z, key, desc) <= 0
  {
    var kx, ky, kz := SortKey(x, key), SortKey(y, key), SortKey(z, key);
    if desc {
      CmpTrans(kz, ky, kx);
    } else {
      CmpTrans(kx, ky, kz);
    }
  }

  /** Two distinct positions are always ordered one way or the other. */
  lemma BeforeTotal(a: seq<Entry>, key: Option<string>, desc: bool, i: nat, j: nat)
    requires i < |a| && j < |a| && i != j
    ensures Before(a, key, desc, i, j) || Before(a, key, desc, j, i)
  {
    CompareFlip(a[i], a[j], key, desc);
  }

  /** `Before` is a strict order. */
  lemma BeforeTrans(a: seq<Entry>, key: Option<string>, desc: bool, i: nat, j: nat, l: nat)
    requires Before(a, key, desc, i, j) && Before(a, key, desc, j, l)
    ensures Before(a, key, desc, i, l)
  {
    CompareTrans(a[i], a[j], a[l], key, desc);
    if Compare(a[i], a[l], key, desc) == 0 {
      // a tie between i and l forces ties on both steps, so i < j < l
      CmpZero(SortKey(a[i], key), SortKey(a[l], key));
      CmpZero(SortKey(a[l], key), SortKey(a[i], key));
      assert SortKey(a[i], key) == SortKey(a[l], key);
      assert Compare(a[j], a[l], key, desc) == Compare(a[j], a[i], key, desc);
      CompareFlip(a[i], a[j], key, desc);
    }
  }

  /** Slot `k` of the working copy `a` holds input entry `ix[k]`. */
  ghost predicate Attached(entries: seq<Entry>, a: seq<Entry>, ix: seq<nat>) {
    |a| == |entries| && |ix| == |entries| &&
    forall k :: 0 <= k < |ix| ==> ix[k] < |entries| && a[k] == entries[ix[k]]
  }

  /** No input position is used twice. */
  ghost predicate Injective(ix: seq<nat>) {
    forall k, l :: 0 <= k < l < |ix| ==> ix[k] != ix[l]
  }

  /** The first `hi` slots are in `Before` order. */
  ghost predicate OrderedPrefix(entries: seq<Entry>, key: Option<string>, desc: bool, ix: seq<nat>, hi: nat) {
    hi <= |ix| && forall k, l :: 0 <= k < l < hi ==> Before(entries, key, desc, ix[k], ix[l])
  }

  /** `s` with slots `j - 1` and `j` exchanged. */
  function Swap<T>(s: seq<T>, j: nat): (w: seq<T>)
    requires 0 < j < |s|
    ensures |w| == |s| && w[j - 1] == s[j] && w[j] == s[j - 1]
    ensures forall k :: 0 <= k < |s| && k != j - 1 && k != j ==> w[k] == s[k]
  {
    s[j - 1 := s[j]][j := s[j - 1]]
  }

  lemma SwapMultiset<T>(s: seq<T>, j: nat)
    requires 0 < j < |s|
    ensures multiset(Swap(s, j)) == multiset(s)
  {
    assert s == s[..j - 1] + [s[j - 1], s[j]] + s[j + 1..];
    assert Swap(s, j) == s[..j - 1] + [s[j], s[j - 1]] + s[j + 1..];
  }

  /** While slot `j` travels down: slots `[0, i]` other than `j` are in
      order, and slot `j` goes before every slot above it. */
  ghost predicate Sifting(entries: seq<Entry>, key: Option<string>, desc: bool, ix: seq<nat>, i: nat, j: nat) {
    j <= i < |ix| &&
    (forall k, l :: 0 <= k < l <= i && k != j && l != j ==> Before(entries, key, desc, ix[k], ix[l])) &&
    (forall l :: j < l <= i ==> Before(entries, key, desc, ix[j], ix[l]))
  }

  /** Exchanging slot `j` with the one below it, when it goes before that
      one, keeps the working copy attached and moves the travelling slot down. */
  lemma SwapStep(entries: seq<Entry>, key: Option<string>, desc: bool, a: seq<Entry>, ix: seq<nat>, i: nat, j: nat)
    requires 0 < j && Attached(entries, a, ix) && Injective(ix)
    requires Sifting(entries, key, desc, ix, i, j)
    requires Before(entries, key, desc, ix[j], ix[j - 1])
    ensures Attached(entries, Swap(a, j), Swap(ix, j)) && Injective(Swap(ix, j))
    ensures Sifting(entries, key, desc, Swap(ix, j), i, j - 1)
  {
    var ix' := Swap(ix, j);
    forall k, l | 0 <= k < l < |ix'|
      ensures ix'[k] != ix'[l]
    {
      var k0 := if k == j - 1 then j else if k == j then j - 1 else k;
      var l0 := if l == j - 1 then j else if l == j then j - 1 else l;
      assert ix'[k] == ix[k0] && ix'[l] == ix[l0];
      assert k0 != l0;
      if k0 < l0 {} else {}
    }
    forall k, l | 0 <= k < l <= i && k != j - 1 && l != j - 1
      ensures Before(entries, key, desc, ix'[k], ix'[l])
    {
      if l == j {
        assert ix'[l] == ix[j - 1];
      } else if k == j {
        assert ix'[k] == ix[j - 1];
      }
    }
  }

  /** Slot `j` stops where the slot below it goes before it: the prefix
      `[0, i]` is then ordered. */
  lemma SiftDone(entries: seq<Entry>, key: Option<string>, desc: bool, a: seq<Entry>, ix: seq<nat>, i: nat, j: nat)
    requires Attached(entries, a, ix) && Injective(ix)
    requires Sifting(entries, key, desc, ix, i, j)
    requires j == 0 || !Before(entries, key, desc, ix[j], ix[j - 1])
    ensures OrderedPrefix(entries, key, desc, ix, i + 1)
  {
    if j > 0 {
      BeforeTotal(entries, key, desc, ix[j], ix[j - 1]);
      forall k | 0 <= k < j - 1
        ensures Before(entries, key, desc, ix[k], ix[j])
      {
        BeforeTrans(entries, key, desc, ix[k], ix[j - 1], ix[j]);
      }
    }
  }

  /** Exchanges slots `j - 1` and `j` of the working copy and of the positions. */
  method SwapSlots(arr: array<Entry>, idx: array<nat>, j: nat)
    requires 0 < j < arr.Length && j < idx.Length
    modifies arr, idx
    ensures arr[..] == Swap(old(arr[..]), j) && idx[..] == Swap(old(idx[..]), j)
  {
    arr[j - 1], arr[j] := arr[j], arr[j - 1];
    idx[j - 1], idx[j] := idx[j], idx[j - 1];
  }

  /** One insertion-sort step: moves slot `i` down into the ordered prefix
      `[0, i)`, carrying its input position along in `idx`. */
  method InsertStep(entries: seq<Entry>, key: Option<string>, desc: bool, arr: array<Entry>, idx: array<nat>, i: nat)
    requires i < |entries|
    requires Attached(entries, arr[..], idx[..]) && Injective(idx[..])
    requires OrderedPrefix(entries, key, desc, idx[..], i)
    modifies arr, idx
    ensures multiset(arr[..]) == multiset(old(arr[..]))
    ensures Attached(entries, arr[..], idx[..]) && Injective(idx[..])
    ensures OrderedPrefix(entries, key, desc, idx[..], i + 1)
    // the unsorted part is untouched
    ensures arr[i + 1..] == old(arr[i + 1..]) && idx[i + 1..] == old(idx[i + 1..])
  {
    var j: nat := i;
    assert Sifting(entries, key, desc, idx[..], i, j);
    while j > 0 && Before(entries, key, desc, idx[j], idx[j - 1])
      invariant multiset(arr[..]) == multiset(old(arr[..]))
      invariant Attached(entries, arr[..], idx[..]) && Injective(idx[..])
      invariant Sifting(entries, key, desc, idx[..], i, j)
      invariant arr[i + 1..] == old(arr[i + 1..]) && idx[i + 1..] == old(idx[i + 1..])
    {
      ghost var a, ix := arr[..], idx[..];
      SwapStep(entries, key, desc, a, ix, i, j);
      SwapMultiset(a, j);
      SwapSlots(arr, idx, j);
      j := j - 1;
    }
    SiftDone(entries, key, desc, arr[..], idx[..], i, j);
  }

  /** A working copy in `Before` order is sorted by the callback, and its
      ties are in input order. */
  lemma SortedByCallback(entries: seq<Entry>, key: Option<string>, desc: bool, a: seq<Entry>, ix: seq<nat>)
    requires Attached(entries, a, ix) && OrderedPrefix(entries, key, desc, ix, |ix|)
    ensures forall k, l :: 0 <= k < l < |a| ==> Compare(a[k], a[l], key, desc) <= 0
    ensures forall k, l :: 0 <= k < l < |a| && Compare(a[k], a[l], key, desc) == 0 ==> ix[k] < ix[l]
  {
    forall k, l | 0 <= k < l < |a|
      ensures Compare(a[k], a[l], key, desc) <= 0
      ensures Compare(a[k], a[l], key, desc) == 0 ==> ix[k] < ix[l]
    {
      assert Before(entries, key, desc, ix[k], ix[l]);
    }
  }

  /** `sortByColumn($array, $key, $desc)`. The input is a value, so the
      caller's array is untouched. `order[k]` is the input position of the
      `k`-th entry of the result. */
  method SortByColumn(entries: seq<Entry>, key: Option<string> := None, desc: bool := false)
    returns (result: seq<Entry>, ghost order: seq<nat>)
    ensures |result| == |entries| && |order| == |entries|
    // a permutation: every entry comes from its own input position, keys stay with their records
    ensures forall k :: 0 <= k < |result| ==> order[k] < |entries| && result[k] == entries[order[k]]
    ensures forall k, l :: 0 <= k < l < |result| ==> order[k] != order[l]
    ensures multiset(result) == multiset(entries)
    // sorted by the callback
    ensures forall k, l :: 0 <= k < l < |result| ==> Compare(result[k], result[l], key, desc) <= 0
    // stable: ties keep their input order
    ensures forall k, l :: 0 <= k < l < |result| && Compare(result[k], result[l], key, desc) == 0 ==>
              order[k] < order[l]
  {
    var n := |entries|;
    var arr := new Entry[n](k requires 0 <= k < n => entries[k]);
    var idx := new nat[n](k => k);
    assert arr[..] == entries;
    for i := 0 to n
      invariant multiset(arr[..]) == multiset(entries)
      invariant Attached(entries, arr[..], idx[..]) && Injective(idx[..])
      invariant OrderedPrefix(entries, key, desc, idx[..], i)
    {
      InsertStep(entries, key, desc, arr, idx, i);
    }
    result, order := arr[..], idx[..];
    SortedByCallback(entries, key, desc, result, order);
  }
}
