/** The values the array functions work on: scalar field values, records
    (PHP arrays with string keys, in insertion order), field access with
    PHP's "missing means null" reading, and the comparison `<=>` used for
    sorting, restricted to one totally ordered value type. */
module Values {

  datatype Option<+T> = None | Some(value: T)

  /** A scalar field value. */
  datatype Value = Null | Int(i: int) | Str(s: string)

  /** A record: a PHP array from field names to values, in insertion order. */
  type Record = seq<(string, Value)>

  /** `$r[$k]` when the entry may be missing: the value of the first entry named `k`. */
  function Lookup(r: Record, k: string): (o: Option<Value>)
    ensures o.None? <==> forall i :: 0 <= i < |r| ==> r[i].0 != k
    ensures o.Some? ==> exists i :: 0 <= i < |r| && r[i] == (k, o.value) && forall j :: 0 <= j < i ==> r[j].0 != k
  {
    if r == [] then None
    else if r[0].0 == k then Some(r[0].1)
    else
      Lookup(r[1..], k)
  }

  /** `$r[$k]` as PHP evaluates it: a missing field reads as null. */
  function Get(r: Record, k: string): (v: Value)
    ensures Lookup(r, k) == Some(v) || (Lookup(r, k).None? && v == Null)
    ensures Lookup(r, k).None? ==> v == Null
  {
    match Lookup(r, k)
    case Some(v) => v
    case None => Null
  }

  /** `isset($r[$k])`: the field is present and not null. */
  predicate IsSet(r: Record, k: string) {
    Lookup(r, k).Some? && Lookup(r, k).value != Null
  }

  /** Lexicographic comparison of strings, character by character. */
  function LexCmp(s: string, t: string): (c: int)
    ensures -1 <= c <= 1
  {
    if s == [] then (if t == [] then 0 else -1)
    else if t == [] then 1
    else if s[0] < t[0] then -1
    else if t[0] < s[0] then 1
    else LexCmp(s[1..], t[1..])
  }

  /** `$x <=> $y` on values: null below integers below strings; integers
      numerically and strings lexicographically. */
  function Cmp(x: Value, y: Value): (c: int)
    ensures -1 <= c <= 1
  {
    match (x, y)
    case (Null, Null) => 0
    case (Null, _) => -1
    case (_, Null) => 1
    case (Int(a), Int(b)) => if a < b then -1 else if b < a then 1 else 0
    case (Int(_), Str(_)) => -1
    case (Str(_), Int(_)) => 1
    case (Str(a), Str(b)) => LexCmp(a, b)
  }

  lemma {:induction false} LexCmpZero(s: string, t: string)
    ensures LexCmp(s, t) == 0 <==> s == t
  {
    if s != [] && t != [] && s[0] == t[0] {
      LexCmpZero(s[1..], t[1..]);
      assert s == [s[0]] + s[1..] && t == [t[0]] + t[1..];
    }
  }

  lemma {:induction false} LexCmpFlip(s: string, t: string)
    ensures LexCmp(t, s) == -LexCmp(s, t)
  {
    if s != [] && t != [] && s[0] == t[0] {
      LexCmpFlip(s[1..], t[1..]);
    }
  }

  lemma {:induction false} LexCmpTrans(s: string, t: string, u: string)
    requires LexCmp(s, t) <= 0 && LexCmp(t, u) <= 0
    ensures LexCmp(s, u) <= 0
  {
    if s != [] && t != [] && u != [] && s[0] == t[0] == u[0] {
      LexCmpTrans(s[1..], t[1..], u[1..]);
    }
  }

  /** `<=>` reports equality exactly on equal values. */
  lemma CmpZero(x: Value, y: Value)
    ensures Cmp(x, y) == 0 <==> x == y
  {
    if x.Str? && y.Str? {
      LexCmpZero(x.s, y.s);
    }
  }

  /** Swapping the operands of `<=>` negates the result. */
  lemma CmpFlip(x: Value, y: Value)
    ensures Cmp(y, x) == -Cmp(x, y)
  {
    if x.Str? && y.Str? {
      LexCmpFlip(x.s, y.s);
    }
  }

  /** `<=` as decided by `<=>` is transitive. */
  lemma CmpTrans(x: Value, y: Value, z: Value)
    requires Cmp(x, y) <= 0 && Cmp(y, z) <= 0
    ensures Cmp(x, z) <= 0
  {
    if x.Str? && y.Str? && z.Str? {
      LexCmpTrans(x.s, y.s, z.s);
    }
  }
}
