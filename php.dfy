/** PHP values, PHP arrays as ordered string-keyed maps, and the PHP string
    functions the modelled request-processing code relies on. */
module Php {

  datatype Option<T> = None | Some(value: T)

  /** The outcome of an operation that may throw: its value, or the exception thrown. */
  datatype Result<T, E> = Ok(value: T) | Err(error: E)

  /** A PHP value, as far as the modelled code tells kinds apart. Arrays are
      ordered maps; integer keys are written as their decimal strings. */
  datatype Value = Null | Bool(b: bool) | Int(i: int) | Str(s: string) | Arr(entries: seq<(string, Value)>)

  /** A PHP array: an ordered sequence of key/value entries. */
  type Assoc<V> = seq<(string, V)>

  // ---------------------------------------------------------------------
  // Ordered maps

  predicate HasKey<V>(a: Assoc<V>, k: string) {
    exists i :: 0 <= i < |a| && a[i].0 == k
  }

  lemma HasKeyCons<V>(x: (string, V), a: Assoc<V>)
    ensures forall k :: HasKey([x] + a, k) <==> k == x.0 || HasKey(a, k)
  {
    forall k | HasKey(a, k) ensures HasKey([x] + a, k) {
      var i :| 0 <= i < |a| && a[i].0 == k;
      assert ([x] + a)[i + 1] == a[i];
    }
    assert ([x] + a)[0] == x;
  }

  /** The PHP array invariant: no key occurs twice. */
  predicate DistinctKeys<V>(a: Assoc<V>) {
    forall i, j :: 0 <= i < j < |a| ==> a[i].0 != a[j].0
  }

  /** The tail of an array with distinct keys has distinct keys and lacks the head's key. */
  lemma DistinctTail<V>(a: Assoc<V>)
    requires a != [] && DistinctKeys(a)
    ensures DistinctKeys(a[1..]) && !HasKey(a[1..], a[0].0)
  {
    forall i | 0 <= i < |a| - 1 ensures a[1..][i].0 != a[0].0 {
      assert a[1..][i] == a[i + 1];
    }
  }

  /** An entry whose key is new, put in front of an array with distinct keys. */
  lemma DistinctCons<V>(x: (string, V), t: Assoc<V>)
    requires DistinctKeys(t) && !HasKey(t, x.0)
    ensures DistinctKeys([x] + t)
  {
    var r := [x] + t;
    forall i, j | 0 <= i < j < |r| ensures r[i].0 != r[j].0 {
      assert r[j] == t[j - 1];
      if i > 0 {
        assert r[i] == t[i - 1];
      }
    }
  }

  /** Distinct keys at every level of nesting, as every PHP array has. */
  predicate WellFormed(v: Value) {
    match v
    case Arr(es) => DistinctKeys(es) && forall i :: 0 <= i < |es| ==> WellFormed(es[i].1)
    case _ => true
  }

  function KeysOf<V>(a: Assoc<V>): (ks: seq<string>)
    ensures |ks| == |a| && forall i :: 0 <= i < |a| ==> ks[i] == a[i].0
  {
    if a == [] then [] else [a[0].0] + KeysOf(a[1..])
  }

  /** `$a[$k]` for a key that may be missing. */
  function Lookup<V>(a: Assoc<V>, k: string): (r: Option<V>)
    ensures r.Some? <==> HasKey(a, k)
    ensures DistinctKeys(a) ==> forall i :: 0 <= i < |a| && a[i].0 == k ==> r == Some(a[i].1)
  {
    if a == [] then None
    else if a[0].0 == k then Some(a[0].1)
    else
      var r := Lookup(a[1..], k);
      assert forall i :: 1 <= i < |a| ==> a[1..][i - 1] == a[i];
      r
  }

  /** `$a[$k] = $v`: an existing key keeps its position, a new key is appended. */
  function Put<V>(a: Assoc<V>, k: string, v: V): (r: Assoc<V>)
    ensures Lookup(r, k) == Some(v)
    ensures forall k' :: k' != k ==> Lookup(r, k') == Lookup(a, k')
    ensures HasKey(a, k) ==> |r| == |a|
    ensures !HasKey(a, k) ==> r == a + [(k, v)]
    ensures DistinctKeys(a) ==> DistinctKeys(r)
  {
    if a == [] then
      PutEmpty(k, v);
      [(k, v)]
    else if a[0].0 == k then
      PutHead(a, k, v);
      [(k, v)] + a[1..]
    else
      var t := Put(a[1..], k, v);
      PutCons(a, k, v, t);
      [a[0]] + t
  }

  /** What `$a[$k] = $v` promises of its result `r`. */
  ghost predicate PutSpec<V>(a: Assoc<V>, k: string, v: V, r: Assoc<V>) {
    && Lookup(r, k) == Some(v)
    && (forall k' :: k' != k ==> Lookup(r, k') == Lookup(a, k'))
    && (HasKey(a, k) ==> |r| == |a|)
    && (!HasKey(a, k) ==> r == a + [(k, v)])
    && (DistinctKeys(a) ==> DistinctKeys(r))
  }

  lemma PutEmpty<V>(k: string, v: V)
    ensures PutSpec([], k, v, [(k, v)])
  {
    assert [] + [(k, v)] == [(k, v)];
  }

  lemma PutHead<V>(a: Assoc<V>, k: string, v: V)
    requires a != [] && a[0].0 == k
    ensures PutSpec(a, k, v, [(k, v)] + a[1..])
  {
    var r := [(k, v)] + a[1..];
    assert r[1..] == a[1..] && HasKey(a, k);
    forall k' | k' != k ensures Lookup(r, k') == Lookup(a, k') {
      assert Lookup(r, k') == Lookup(a[1..], k');
    }
    if DistinctKeys(a) {
      DistinctTail(a);
      DistinctCons((k, v), a[1..]);
    }
  }

  lemma PutCons<V>(a: Assoc<V>, k: string, v: V, t: Assoc<V>)
    requires a != [] && a[0].0 != k
    requires PutSpec(a[1..], k, v, t)
    ensures PutSpec(a, k, v, [a[0]] + t)
  {
    var r := [a[0]] + t;
    assert r[0] == a[0] && r[1..] == t;
    assert Lookup(r, k) == Lookup(t, k);
    forall k' | k' != k && k' != a[0].0 ensures Lookup(r, k') == Lookup(a, k') {
      assert Lookup(r, k') == Lookup(t, k');
      assert Lookup(a, k') == Lookup(a[1..], k');
    }
    assert a == [a[0]] + a[1..];
    assert HasKey(a, k) <==> HasKey(a[1..], k) by {
      HasKeyCons(a[0], a[1..]);
    }
    if DistinctKeys(a) {
      DistinctTail(a);
      assert Lookup(t, a[0].0) == Lookup(a[1..], a[0].0);
      DistinctCons(a[0], t);
    }
  }
  /** The array the assignments `$a[$k] = $v`, one per pair in order, build
      from an empty array. */
  function PutAll<V>(pairs: seq<(string, V)>): Assoc<V> {
    if pairs == [] then []
    else
      var n := |pairs| - 1;
      Put(PutAll(pairs[..n]), pairs[n].0, pairs[n].1)
  }

  /** The last pair decides its own key and leaves the others as they were. */
  lemma PutAllStep<V>(pairs: seq<(string, V)>, k: string)
    requires pairs != []
    ensures var n := |pairs| - 1;
      Lookup(PutAll(pairs), k) == if pairs[n].0 == k then Some(pairs[n].1) else Lookup(PutAll(pairs[..n]), k)
  {
    var n := |pairs| - 1;
    assert PutAll(pairs) == Put(PutAll(pairs[..n]), pairs[n].0, pairs[n].1);
  }

  /** The value of the last pair with key `k`, if any. */
  function LastValue<V>(pairs: seq<(string, V)>, k: string): Option<V> {
    if pairs == [] then None
    else
      var n := |pairs| - 1;
      if pairs[n].0 == k then Some(pairs[n].1) else LastValue(pairs[..n], k)
  }

  /** After the assignments every key holds the value of the last pair
      assigning it, and no other key is present. */
  lemma {:induction false} PutAllLookup<V>(pairs: seq<(string, V)>, k: string)
    ensures Lookup(PutAll(pairs), k) == LastValue(pairs, k)
  {
    if pairs != [] {
      PutAllStep(pairs, k);
      PutAllLookup(pairs[..|pairs| - 1], k);
    }
  }

  /** A key has a last value exactly when some pair assigns it. */
  lemma {:induction false} LastValueKeys<V>(pairs: seq<(string, V)>, k: string)
    ensures LastValue(pairs, k).None? <==> forall i :: 0 <= i < |pairs| ==> pairs[i].0 != k
  {
    if pairs != [] {
      var n := |pairs| - 1;
      var p := pairs[..n];
      LastValueKeys(p, k);
      assert forall i :: 0 <= i < n ==> pairs[i] == p[i];
    }
  }

  /** The last value is that of a pair with the key after which no pair has it. */
  lemma {:induction false} LastValueLast<V>(pairs: seq<(string, V)>, k: string)
    requires LastValue(pairs, k).Some?
    ensures exists i :: (0 <= i < |pairs| && pairs[i].0 == k && LastValue(pairs, k).value == pairs[i].1
                         && forall j :: i < j < |pairs| ==> pairs[j].0 != k)
  {
    var n := |pairs| - 1;
    var p := pairs[..n];
    if pairs[n].0 != k {
      LastValueLast(p, k);
      var i :| 0 <= i < |p| && p[i].0 == k && LastValue(p, k).value == p[i].1
        && forall j :: i < j < |p| ==> p[j].0 != k;
      assert pairs[i] == p[i];
      assert forall j :: i < j < n ==> pairs[j] == p[j];
    }
  }



  /** `unset($a[$k])`. */
  function Remove<V>(a: Assoc<V>, k: string): (r: Assoc<V>)
    ensures !HasKey(r, k)
    ensures forall k' :: k' != k ==> Lookup(r, k') == Lookup(a, k')
    ensures DistinctKeys(a) ==> DistinctKeys(r)
    ensures forall i :: 0 <= i < |r| ==> r[i] in a
  {
    if a == [] then []
    else if a[0].0 == k then Remove(a[1..], k)
    else
      var t := Remove(a[1..], k);
      assert forall i :: 0 <= i < |t| ==> t[i] in a[1..];
      [a[0]] + t
  }

  /** The union operator `$a + $b`: keys of `a` keep their values, keys only in
      `b` are appended in `b`'s order. */
  function Union<V>(a: Assoc<V>, b: Assoc<V>): (r: Assoc<V>)
    ensures forall k :: Lookup(r, k) == (if HasKey(a, k) then Lookup(a, k) else Lookup(b, k))
    ensures forall k :: HasKey(r, k) <==> HasKey(a, k) || HasKey(b, k)
    ensures DistinctKeys(a) && DistinctKeys(b) ==> DistinctKeys(r)
    ensures |a| <= |r| && r[..|a|] == a
    decreases |b|
  {
    if b == [] then
      assert a[..|a|] == a;
      a
    else
      var front := Union(a, b[..|b| - 1]);
      UnionStep(a, b, front);
      if HasKey(front, b[|b| - 1].0) then front else front + [b[|b| - 1]]
  }

  /** What `$a + $b` promises of its result `r`. */
  ghost predicate UnionSpec<V>(a: Assoc<V>, b: Assoc<V>, r: Assoc<V>) {
    && (forall k :: Lookup(r, k) == (if HasKey(a, k) then Lookup(a, k) else Lookup(b, k)))
    && (forall k :: HasKey(r, k) <==> HasKey(a, k) || HasKey(b, k))
    && (DistinctKeys(a) && DistinctKeys(b) ==> DistinctKeys(r))
    && |a| <= |r| && r[..|a|] == a
  }

  /** The last entry of `b` is appended exactly when its key is new. */
  lemma UnionStep<V>(a: Assoc<V>, b: Assoc<V>, front: Assoc<V>)
    requires b != []
    requires UnionSpec(a, b[..|b| - 1], front)
    ensures UnionSpec(a, b, if HasKey(front, b[|b| - 1].0) then front else front + [b[|b| - 1]])
  {
    var p := b[..|b| - 1];
    var last := b[|b| - 1];
    assert b == p + [last];
    if HasKey(front, last.0) {
      UnionKeep(a, p, last, front);
    } else {
      UnionAppend(a, p, last, front);
    }
  }

  lemma UnionKeep<V>(a: Assoc<V>, p: Assoc<V>, last: (string, V), front: Assoc<V>)
    requires UnionSpec(a, p, front) && HasKey(front, last.0)
    ensures UnionSpec(a, p + [last], front)
  {
    LookupSnoc(p, last);
    HasKeySnoc(p, last);
    if DistinctKeys(p + [last]) {
      DistinctSnocParts(p, last);
    }
  }

  lemma UnionAppend<V>(a: Assoc<V>, p: Assoc<V>, last: (string, V), front: Assoc<V>)
    requires UnionSpec(a, p, front) && !HasKey(front, last.0)
    ensures UnionSpec(a, p + [last], front + [last])
  {
    LookupSnoc(p, last);
    HasKeySnoc(p, last);
    LookupSnoc(front, last);
    HasKeySnoc(front, last);
    if DistinctKeys(a) && DistinctKeys(p + [last]) {
      DistinctSnocParts(p, last);
      DistinctSnoc(front, last);
    }
    assert (front + [last])[..|a|] == front[..|a|];
  }

  lemma HasKeySnoc<V>(a: Assoc<V>, e: (string, V))
    ensures forall k :: HasKey(a + [e], k) <==> HasKey(a, k) || k == e.0
  {
    var r := a + [e];
    assert r[|a|] == e;
    forall k | HasKey(a, k) ensures HasKey(r, k) {
      var i :| 0 <= i < |a| && a[i].0 == k;
      assert r[i] == a[i];
    }
    forall k | HasKey(r, k) && k != e.0 ensures HasKey(a, k) {
      var i :| 0 <= i < |r| && r[i].0 == k;
      assert r[i] == a[i];
    }
  }

  /** An entry whose key is new, appended to an array with distinct keys. */
  lemma DistinctSnoc<V>(a: Assoc<V>, e: (string, V))
    requires DistinctKeys(a) && !HasKey(a, e.0)
    ensures DistinctKeys(a + [e])
  {
    var r := a + [e];
    forall i, j | 0 <= i < j < |r| ensures r[i].0 != r[j].0 {
      assert r[i] == a[i];
      if j < |a| { assert r[j] == a[j]; }
    }
  }

  /** The parts of an array with distinct keys, split before its last entry. */
  lemma DistinctSnocParts<V>(a: Assoc<V>, e: (string, V))
    requires DistinctKeys(a + [e])
    ensures DistinctKeys(a) && !HasKey(a, e.0)
  {
    var r := a + [e];
    forall i, j | 0 <= i < j < |a| ensures a[i].0 != a[j].0 {
      assert r[i] == a[i] && r[j] == a[j];
    }
    forall i | 0 <= i < |a| ensures a[i].0 != e.0 {
      assert r[i] == a[i] && r[|a|] == e;
    }
  }

  lemma LookupSnoc<V>(a: Assoc<V>, e: (string, V))
    ensures forall k :: Lookup(a + [e], k) == (if k == e.0 && !HasKey(a, k) then Some(e.1) else Lookup(a, k))
  {
    if a != [] {
      LookupSnoc(a[1..], e);
      assert (a + [e])[1..] == a[1..] + [e];
    }
  }

  /** `array_merge($a, $b)` over string keys: every entry of `b` is assigned
      into `a` in order, so later values win and new keys are appended. */
  function Merge<V>(a: Assoc<V>, b: Assoc<V>): (r: Assoc<V>)
    ensures DistinctKeys(b) ==> forall k :: Lookup(r, k) == (if HasKey(b, k) then Lookup(b, k) else Lookup(a, k))
    ensures DistinctKeys(a) ==> DistinctKeys(r)
    decreases |b|
  {
    if b == [] then a
    else
      var p := Put(a, b[0].0, b[0].1);
      var r := Merge(p, b[1..]);
      MergeStep(a, b, r);
      r
  }

  /** `$a[$k] = $v` for a key that occurs exactly once replaces that entry in place. */
  lemma {:induction false} PutAtKey<V>(a: Assoc<V>, e: (string, V), b: Assoc<V>, v: V)
    requires !HasKey(a, e.0)
    ensures Put(a + [e] + b, e.0, v) == a + [(e.0, v)] + b
  {
    if a != [] {
      SplitHead(a, e, b);
      SplitHead(a, (e.0, v), b);
      NoKeyTail(a, e.0);
      PutAtKey(a[1..], e, b, v);
      PutOther(a[0], a[1..] + [e] + b, e.0, v);
    } else {
      SplitEmpty(e, b);
      SplitEmpty((e.0, v), b);
      PutFirst(e, b, v);
    }
  }

  lemma SplitHead<V>(a: Assoc<V>, e: (string, V), b: Assoc<V>)
    requires a != []
    ensures a + [e] + b == [a[0]] + (a[1..] + [e] + b)
  {
  }

  lemma SplitEmpty<V>(e: (string, V), b: Assoc<V>)
    ensures [] + [e] + b == [e] + b
  {
  }

  /** A key missing from an array is missing from its tail. */
  lemma NoKeyTail<V>(a: Assoc<V>, k: string)
    requires a != [] && !HasKey(a, k)
    ensures a[0].0 != k && !HasKey(a[1..], k)
  {
    assert a[0].0 != k;
    forall i | 0 <= i < |a| - 1 ensures a[1..][i].0 != k {
      assert a[1..][i] == a[i + 1];
    }
  }

  /** Assigning a key other than the first keeps the first entry in front. */
  lemma PutOther<V>(x: (string, V), y: Assoc<V>, k: string, v: V)
    requires x.0 != k
    ensures Put([x] + y, k, v) == [x] + Put(y, k, v)
  {
    assert ([x] + y)[1..] == y;
  }

  /** Assigning the first key replaces the first entry. */
  lemma PutFirst<V>(x: (string, V), y: Assoc<V>, v: V)
    ensures Put([x] + y, x.0, v) == [(x.0, v)] + y
  {
    assert ([x] + y)[1..] == y;
  }

  /** `unset($a[$k])` for a key that occurs exactly once drops that entry in place. */
  lemma {:induction false} RemoveAtKey<V>(a: Assoc<V>, e: (string, V), b: Assoc<V>)
    requires !HasKey(a, e.0) && !HasKey(b, e.0)
    ensures Remove(a + [e] + b, e.0) == a + b
  {
    if a != [] {
      SplitHead(a, e, b);
      SplitHeadPair(a, b);
      NoKeyTail(a, e.0);
      RemoveAtKey(a[1..], e, b);
      RemoveOther(a[0], a[1..] + [e] + b, e.0);
    } else {
      SplitEmpty(e, b);
      RemoveFirst(e, b);
      RemoveAbsent(b, e.0);
    }
  }

  lemma SplitHeadPair<V>(a: Assoc<V>, b: Assoc<V>)
    requires a != []
    ensures a + b == [a[0]] + (a[1..] + b)
  {
  }

  /** Removing a key other than the first keeps the first entry in front. */
  lemma RemoveOther<V>(x: (string, V), y: Assoc<V>, k: string)
    requires x.0 != k
    ensures Remove([x] + y, k) == [x] + Remove(y, k)
  {
    assert ([x] + y)[1..] == y;
  }

  /** Removing the first key drops the first entry. */
  lemma RemoveFirst<V>(x: (string, V), y: Assoc<V>)
    ensures Remove([x] + y, x.0) == Remove(y, x.0)
  {
    assert ([x] + y)[1..] == y;
  }

  lemma {:induction false} RemoveAbsent<V>(a: Assoc<V>, k: string)
    requires !HasKey(a, k)
    ensures Remove(a, k) == a
  {
    if a != [] {
      NoKeyTail(a, k);
      RemoveAbsent(a[1..], k);
      RemoveOther(a[0], a[1..], k);
      assert a == [a[0]] + a[1..];
    }
  }

  lemma {:induction false} MergeSnoc<V>(a: Assoc<V>, b: Assoc<V>, e: (string, V))
    ensures Merge(a, b + [e]) == Put(Merge(a, b), e.0, e.1)
    decreases |b|
  {
    if b == [] {
      assert ([e])[1..] == [];
    } else {
      assert (b + [e])[0] == b[0] && (b + [e])[1..] == b[1..] + [e];
      MergeSnoc(Put(a, b[0].0, b[0].1), b[1..], e);
    }
  }

  /** One more entry of `b` merged in. */
  lemma MergePrefix<V>(a: Assoc<V>, b: Assoc<V>, i: nat)
    requires i < |b|
    ensures Merge(a, b[..i + 1]) == Put(Merge(a, b[..i]), b[i].0, b[i].1)
  {
    assert b[..i + 1] == b[..i] + [b[i]];
    MergeSnoc(a, b[..i], b[i]);
  }

  lemma MergeStep<V>(a: Assoc<V>, b: Assoc<V>, r: Assoc<V>)
    requires b != []
    requires DistinctKeys(b[1..]) ==> forall k :: Lookup(r, k) == (if HasKey(b[1..], k) then Lookup(b[1..], k) else Lookup(Put(a, b[0].0, b[0].1), k))
    ensures DistinctKeys(b) ==> forall k :: Lookup(r, k) == (if HasKey(b, k) then Lookup(b, k) else Lookup(a, k))
  {
    if DistinctKeys(b) {
      assert DistinctKeys(b[1..]);
      var p := Put(a, b[0].0, b[0].1);
      forall k ensures Lookup(r, k) == (if HasKey(b, k) then Lookup(b, k) else Lookup(a, k)) {
        if HasKey(b[1..], k) {
          var i :| 0 <= i < |b[1..]| && b[1..][i].0 == k;
          assert b[i + 1] == b[1..][i];
          assert Lookup(b, k) == Lookup(b[1..], k);
        } else if k == b[0].0 {
          assert Lookup(r, k) == Lookup(p, k);
        } else {
          assert Lookup(r, k) == Lookup(p, k) == Lookup(a, k);
        }
      }
    }
  }

  // ---------------------------------------------------------------------
  // Key order (`ksort` compares string keys byte by byte)

  predicate Less(a: string, b: string) {
    if a == [] then b != []
    else if b == [] then false
    else a[0] < b[0] || (a[0] == b[0] && Less(a[1..], b[1..]))
  }

  lemma {:induction false} LessIrreflexive(a: string)
    ensures !Less(a, a)
  {
    if a != [] { LessIrreflexive(a[1..]); }
  }

  lemma {:induction false} LessTransitive(a: string, b: string, c: string)
    requires Less(a, b) && Less(b, c)
    ensures Less(a, c)
  {
    if a != [] && b != [] && c != [] && a[0] == b[0] == c[0] {
      LessTransitive(a[1..], b[1..], c[1..]);
    }
  }

  lemma {:induction false} LessTotal(a: string, b: string)
    ensures a == b || Less(a, b) || Less(b, a)
  {
    if a != [] && b != [] && a[0] == b[0] {
      LessTotal(a[1..], b[1..]);
      if a[1..] == b[1..] { assert a == [a[0]] + a[1..] && b == [b[0]] + b[1..]; }
    }
  }

  /** Keys in non-decreasing order. */
  predicate Sorted<V>(s: Assoc<V>) {
    forall i, j :: 0 <= i < j < |s| ==> !Less(s[j].0, s[i].0)
  }

  /** Keys in strictly increasing order, as after `ksort` of a PHP array. */
  predicate StrictlySorted<V>(s: Assoc<V>) {
    forall i, j :: 0 <= i < j < |s| ==> Less(s[i].0, s[j].0)
  }

  lemma SortedDistinctIsStrict<V>(s: Assoc<V>)
    ensures Sorted(s) && DistinctKeys(s) ==> StrictlySorted(s)
  {
    if Sorted(s) && DistinctKeys(s) {
      forall i, j | 0 <= i < j < |s| ensures Less(s[i].0, s[j].0) {
        LessTotal(s[i].0, s[j].0);
      }
    }
  }

  function Insert<V>(e: (string, V), s: Assoc<V>): (r: Assoc<V>)
    requires Sorted(s)
    ensures Sorted(r) && |r| == |s| + 1
    ensures forall i :: 0 <= i < |r| ==> r[i] == e || r[i] in s
    ensures forall k :: HasKey(r, k) <==> k == e.0 || HasKey(s, k)
    ensures !HasKey(s, e.0) && DistinctKeys(s) ==> DistinctKeys(r)
    ensures !HasKey(s, e.0) ==> forall k :: Lookup(r, k) == (if k == e.0 then Some(e.1) else Lookup(s, k))
  {
    if s == [] then
      InsertFront(e, s);
      [e] + s
    else if !Less(s[0].0, e.0) then
      InsertFront(e, s);
      [e] + s
    else
      var t := Insert(e, s[1..]);
      InsertCons(e, s, t);
      [s[0]] + t
  }

  /** What inserting `e` into the sorted `s` promises of its result `r`. */
  ghost predicate InsertSpec<V>(e: (string, V), s: Assoc<V>, r: Assoc<V>) {
    && Sorted(r) && |r| == |s| + 1
    && (forall i :: 0 <= i < |r| ==> r[i] == e || r[i] in s)
    && (forall k :: HasKey(r, k) <==> k == e.0 || HasKey(s, k))
    && (!HasKey(s, e.0) && DistinctKeys(s) ==> DistinctKeys(r))
    && (!HasKey(s, e.0) ==> forall k :: Lookup(r, k) == (if k == e.0 then Some(e.1) else Lookup(s, k)))
  }

  /** An entry whose key no key of `s` precedes goes in front. */
  lemma InsertFront<V>(e: (string, V), s: Assoc<V>)
    requires Sorted(s) && (s == [] || !Less(s[0].0, e.0))
    ensures InsertSpec(e, s, [e] + s)
  {
    var r := [e] + s;
    assert r[0] == e && r[1..] == s;
    forall j | 0 <= j < |s| ensures !Less(s[j].0, e.0) {
      if Less(s[j].0, e.0) {
        LessTotal(s[0].0, s[j].0);
        if s[0].0 != s[j].0 {
          assert !Less(s[j].0, s[0].0);
          LessTransitive(s[0].0, s[j].0, e.0);
        }
      }
    }
    forall i, j | 0 <= i < j < |r| ensures !Less(r[j].0, r[i].0) {
      assert r[j] == s[j - 1];
      if i > 0 { assert r[i] == s[i - 1]; }
    }
    forall i | 0 < i < |r| ensures r[i] in s {
      assert r[i] == s[i - 1];
    }
    HasKeyCons(e, s);
    if !HasKey(s, e.0) && DistinctKeys(s) {
      DistinctCons(e, s);
    }
    forall k | k != e.0 ensures Lookup(r, k) == Lookup(s, k) {
      assert Lookup(r, k) == Lookup(r[1..], k);
    }
  }

  /** An entry whose key follows the first key goes into the tail. */
  lemma InsertCons<V>(e: (string, V), s: Assoc<V>, t: Assoc<V>)
    requires Sorted(s) && s != [] && Less(s[0].0, e.0)
    requires InsertSpec(e, s[1..], t)
    ensures InsertSpec(e, s, [s[0]] + t)
  {
    var r := [s[0]] + t;
    assert r[0] == s[0] && r[1..] == t;
    assert s == [s[0]] + s[1..];
    forall i | 0 <= i < |t| ensures !Less(t[i].0, s[0].0) {
      if t[i] == e {
        LessTotal(e.0, s[0].0);
        if Less(e.0, s[0].0) { LessTransitive(e.0, s[0].0, e.0); LessIrreflexive(e.0); }
      } else {
        assert t[i] in s[1..];
        var m :| 0 <= m < |s[1..]| && s[1..][m] == t[i];
        assert s[1..][m] == s[m + 1];
      }
    }
    forall i, j | 0 <= i < j < |r| ensures !Less(r[j].0, r[i].0) {
      assert r[j] == t[j - 1];
      if i > 0 { assert r[i] == t[i - 1]; }
    }
    forall i | 0 <= i < |r| ensures r[i] == e || r[i] in s {
      if i > 0 {
        assert r[i] == t[i - 1];
        if r[i] != e {
          var m :| 0 <= m < |s[1..]| && s[1..][m] == r[i];
          assert s[1..][m] == s[m + 1];
        }
      }
    }
    HasKeyCons(s[0], t);
    HasKeyCons(s[0], s[1..]);
    if !HasKey(s, e.0) {
      assert !HasKey(s[1..], e.0);
      forall k ensures Lookup(r, k) == (if k == e.0 then Some(e.1) else Lookup(s, k)) {
        if k != s[0].0 {
          assert Lookup(r, k) == Lookup(t, k);
          assert Lookup(s, k) == Lookup(s[1..], k);
        }
      }
      if DistinctKeys(s) {
        DistinctTail(s);
        DistinctCons(s[0], t);
      }
    }
  }

  /** `ksort`: the same entries, ordered by key. */
  function KSort<V>(a: Assoc<V>): (r: Assoc<V>)
    ensures Sorted(r) && |r| == |a|
    ensures forall i :: 0 <= i < |r| ==> r[i] in a
    ensures forall k :: HasKey(r, k) <==> HasKey(a, k)
    ensures DistinctKeys(a) ==> DistinctKeys(r) && StrictlySorted(r)
    ensures DistinctKeys(a) ==> forall k :: Lookup(r, k) == Lookup(a, k)
  {
    if a == [] then []
    else
      var t := KSort(a[1..]);
      var r := Insert(a[0], t);
      KSortStep(a, t, r);
      r
  }

  /** What `ksort` of `a` promises of its result `r`. */
  ghost predicate KSortSpec<V>(a: Assoc<V>, r: Assoc<V>) {
    && Sorted(r) && |r| == |a|
    && (forall i :: 0 <= i < |r| ==> r[i] in a)
    && (forall k :: HasKey(r, k) <==> HasKey(a, k))
    && (DistinctKeys(a) ==> DistinctKeys(r) && StrictlySorted(r))
    && (DistinctKeys(a) ==> forall k :: Lookup(r, k) == Lookup(a, k))
  }

  /** Sorting the tail and inserting the head sorts the whole. */
  lemma KSortStep<V>(a: Assoc<V>, t: Assoc<V>, r: Assoc<V>)
    requires a != [] && KSortSpec(a[1..], t) && r == Insert(a[0], t)
    ensures KSortSpec(a, r)
  {
    HasKeyCons(a[0], a[1..]);
    assert a == [a[0]] + a[1..];
    forall i | 0 <= i < |r| ensures r[i] in a {
      if r[i] != a[0] {
        assert r[i] in t;
        assert r[i] in a[1..];
      }
    }
    if DistinctKeys(a) {
      assert !HasKey(a[1..], a[0].0);
      DistinctTail(a);
      assert forall k :: k != a[0].0 ==> Lookup(a, k) == Lookup(a[1..], k);
      SortedDistinctIsStrict(r);
    }
  }

  // ---------------------------------------------------------------------
  // Conversions of values

  /** PHP truthiness, as `if ($v)` and `empty()` see it. */
  predicate Truthy(v: Value) {
    match v
    case Null => false
    case Bool(b) => b
    case Int(i) => i != 0
    case Str(s) => s != "" && s != "0"
    case Arr(es) => es != []
  }

  /** `isset($a[$k])`: the key is present and its value is not null. */
  predicate IsSet(a: Assoc<Value>, k: string) {
    Lookup(a, k).Some? && Lookup(a, k).value != Null
  }

  /** `$a[$k]` on a configuration collection: null when the key is missing. */
  function Get(a: Assoc<Value>, k: string): (v: Value)
    ensures HasKey(a, k) <== v != Null
    ensures IsSet(a, k) <==> v != Null
  {
    match Lookup(a, k)
    case Some(v) => v
    case None => Null
  }

  function DigitChar(d: nat): (c: char)
    requires d < 10
    ensures '0' <= c <= '9'
  {
    ['0', '1', '2', '3', '4', '5', '6', '7', '8', '9'][d]
  }

  function NatToString(n: nat): (s: string)
    ensures |s| >= 1 && forall i :: 0 <= i < |s| ==> '0' <= s[i] <= '9'
  {
    if n < 10 then [DigitChar(n)] else NatToString(n / 10) + [DigitChar(n % 10)]
  }

  function IntToString(i: int): (s: string)
    ensures |s| >= 1
  {
    if i < 0 then "-" + NatToString(-i) else NatToString(i)
  }

  /** The string conversion `(string) $v` (an array converts to "Array"). */
  function ToPhpString(v: Value): string {
    match v
    case Null => ""
    case Bool(b) => if b then "1" else ""
    case Int(i) => IntToString(i)
    case Str(s) => s
    case Arr(_) => "Array"
  }

  // ---------------------------------------------------------------------
  // Strings

  function Count(s: string, c: char): (n: nat)
    ensures n <= |s|
    ensures n == 0 <==> c !in s
  {
    if s == [] then 0 else (if s[0] == c then 1 else 0) + Count(s[1..], c)
  }

  lemma {:induction false} CountAppend(a: string, b: string, c: char)
    ensures Count(a + b, c) == Count(a, c) + Count(b, c)
  {
    if a != [] {
      assert (a + b)[0] == a[0] && (a + b)[1..] == a[1..] + b;
      CountAppend(a[1..], b, c);
    } else {
      assert a + b == b;
    }
  }

  /** `strpos($haystack, $needle) !== false`. */
  predicate Contains(haystack: string, needle: string) {
    needle <= haystack || (haystack != [] && Contains(haystack[1..], needle))
  }

  /** An ASCII letter in upper case; any other character as it is. */
  function FoldCase(c: char): char {
    if 'a' <= c <= 'z' then (c as int - 32) as char else c
  }

  /** `strtoupper` on ASCII letters. */
  function Upper(s: string): (r: string)
    ensures |r| == |s|
    ensures forall i :: 0 <= i < |s| ==> r[i] == FoldCase(s[i])
  {
    if s == [] then [] else [FoldCase(s[0])] + Upper(s[1..])
  }

  /** Header names compare without regard to ASCII case. */
  predicate SameName(a: string, b: string) {
    |a| == |b| && forall i :: 0 <= i < |a| ==> FoldCase(a[i]) == FoldCase(b[i])
  }

  /** The value of the first header whose name matches `name` in any case. */
  function FindHeader<V>(h: Assoc<V>, name: string): Option<V> {
    if h == [] then None
    else if SameName(h[0].0, name) then Some(h[0].1)
    else FindHeader(h[1..], name)
  }

  /** FindHeader finds nothing exactly when no name matches, and otherwise
      the value of the first entry that does. */
  lemma {:induction false} FindHeaderFirst<V>(h: Assoc<V>, name: string)
    ensures FindHeader(h, name).None? <==> forall i :: 0 <= i < |h| ==> !SameName(h[i].0, name)
    ensures FindHeader(h, name).Some? ==>
      exists i :: (0 <= i < |h| && SameName(h[i].0, name) && h[i].1 == FindHeader(h, name).value
                   && forall j :: 0 <= j < i ==> !SameName(h[j].0, name))
  {
    if h != [] && !SameName(h[0].0, name) {
      FindHeaderFirst(h[1..], name);
      assert forall i :: 1 <= i < |h| ==> h[1..][i - 1] == h[i];
      if FindHeader(h, name).Some? {
        var i :| 0 <= i < |h[1..]| && SameName(h[1..][i].0, name) && h[1..][i].1 == FindHeader(h, name).value
          && forall j :: 0 <= j < i ==> !SameName(h[1..][j].0, name);
        assert forall j :: 0 <= j < i + 1 ==> !SameName(h[j].0, name) by {
          forall j | 0 <= j < i + 1 ensures !SameName(h[j].0, name) {
            if j > 0 { assert h[j] == h[1..][j - 1]; }
          }
        }
      }
    } else if h != [] {
      assert SameName(h[0].0, name) && h[0].1 == FindHeader(h, name).value;
    }
  }

  predicate HasHeader<V>(h: Assoc<V>, name: string) {
    FindHeader(h, name).Some?
  }

  lemma FindHeaderSnoc<V>(a: Assoc<V>, e: (string, V))
    ensures forall n :: (FindHeader(a + [e], n) ==
                         if FindHeader(a, n).Some? then FindHeader(a, n) else if SameName(e.0, n) then Some(e.1) else None)
  {
    if a != [] {
      FindHeaderSnoc(a[1..], e);
      assert (a + [e])[1..] == a[1..] + [e];
    }
  }

  /** The headers left when every header named `name`, in any case, is
      removed; the others keep their order (WithoutHeaderFinds). */
  function WithoutHeader<V>(h: Assoc<V>, name: string): Assoc<V> {
    if h == [] then []
    else if SameName(h[0].0, name) then WithoutHeader(h[1..], name)
    else [h[0]] + WithoutHeader(h[1..], name)
  }

  /** No header of that name is left, and every other name finds what it
      found before. */
  lemma {:induction false} WithoutHeaderFinds<V>(h: Assoc<V>, name: string)
    ensures var r := WithoutHeader(h, name);
      && (forall i :: 0 <= i < |r| ==> !SameName(r[i].0, name))
      && (forall n :: !SameName(n, name) ==> FindHeader(r, n) == FindHeader(h, n))
      && (forall k :: !SameName(k, name) ==> Lookup(r, k) == Lookup(h, k))
  {
    if h != [] {
      WithoutHeaderFinds(h[1..], name);
      var t := WithoutHeader(h[1..], name);
      if !SameName(h[0].0, name) {
        assert ([h[0]] + t)[1..] == t;
      }
    }
  }

  /** Two headers of different names set one after the other: both are
      found, and every other header is as it was. */
  lemma SetHeaderPair<V>(h: Assoc<V>, a: string, va: V, b: string, vb: V)
    requires !SameName(a, b)
    ensures var r := SetHeader(SetHeader(h, a, va), b, vb);
      && FindHeader(r, a) == Some(va) && FindHeader(r, b) == Some(vb)
      && forall n :: !SameName(n, a) && !SameName(n, b) ==> FindHeader(r, n) == FindHeader(h, n)
  {
    SetHeaderFinds(h, a, va);
    SetHeaderFinds(SetHeader(h, a, va), b, vb);
  }

  /** A header set, then a second of another name set when `second` holds:
      both are found and every other header is as it was. */
  lemma SetHeaderMaybePair<V>(h: Assoc<V>, a: string, va: V, b: string, vb: V, second: bool)
    requires !SameName(a, b)
    ensures var typed := SetHeader(h, a, va);
      var r := if second then SetHeader(typed, b, vb) else typed;
      && FindHeader(r, a) == Some(va)
      && FindHeader(r, b) == (if second then Some(vb) else FindHeader(h, b))
      && forall n :: !SameName(n, a) && !SameName(n, b) ==> FindHeader(r, n) == FindHeader(h, n)
  {
    SetHeaderFinds(h, a, va);
    if second {
      SetHeaderPair(h, a, va, b, vb);
    }
  }

  /** `setHeader`: the new header replaces every header of the same name in
      any case (SetHeaderFinds). */
  function SetHeader<V>(h: Assoc<V>, name: string, v: V): Assoc<V> {
    WithoutHeader(h, name) + [(name, v)]
  }

  /** After setHeader the header is found with its new value, it is the only
      header of that name, and no other header changes. */
  lemma SetHeaderFinds<V>(h: Assoc<V>, name: string, v: V)
    ensures var r := SetHeader(h, name, v);
      && FindHeader(r, name) == Some(v)
      && (forall i :: 0 <= i < |r| && SameName(r[i].0, name) ==> r[i] == (name, v))
      && (forall n :: !SameName(n, name) ==> FindHeader(r, n) == FindHeader(h, n))
      && (forall k :: !SameName(k, name) ==> Lookup(r, k) == Lookup(h, k))
  {
    var w := WithoutHeader(h, name);
    WithoutHeaderFinds(h, name);
    FindHeaderSnoc(w, (name, v));
    LookupSnoc(w, (name, v));
    FindHeaderFirst(w, name);
  }

  /** The characters `trim` removes: space, tab, line feed, carriage return, NUL, vertical tab. */
  predicate IsTrimmed(c: char) {
    c == ' ' || c == '\t' || c == '\n' || c == '\r' || c == '\0' || c == '\U{000B}'
  }

  function TrimLeft(s: string): (r: string)
    ensures |r| <= |s| && r == s[|s| - |r|..]
    ensures r == [] || !IsTrimmed(r[0])
    ensures forall i :: 0 <= i < |s| - |r| ==> IsTrimmed(s[i])
  {
    if s != [] && IsTrimmed(s[0]) then TrimLeft(s[1..]) else s
  }

  function TrimRight(s: string): (r: string)
    ensures |r| <= |s| && r == s[..|r|]
    ensures r == [] || !IsTrimmed(r[|r| - 1])
    ensures forall i :: |r| <= i < |s| ==> IsTrimmed(s[i])
  {
    if s != [] && IsTrimmed(s[|s| - 1]) then TrimRight(s[..|s| - 1]) else s
  }

  /** `trim`: strips the trimmed characters from both ends. */
  function Trim(s: string): (r: string)
    ensures r == [] || (!IsTrimmed(r[0]) && !IsTrimmed(r[|r| - 1]))
    ensures exists i, j :: 0 <= i <= j <= |s| && r == s[i..j]
  {
    var l := TrimLeft(s);
    var r := TrimRight(l);
    assert r == s[|s| - |l|..|s| - |l| + |r|];
    r
  }

  /** `implode($sep, $parts)`. */
  function Join(parts: seq<string>, sep: string): (r: string)
    ensures |parts| == 1 ==> r == parts[0]
  {
    if parts == [] then ""
    else if |parts| == 1 then parts[0]
    else parts[0] + sep + Join(parts[1..], sep)
  }

  lemma {:induction false} JoinSnoc(xs: seq<string>, x: string, sep: string)
    requires xs != []
    ensures Join(xs + [x], sep) == Join(xs, sep) + sep + x
  {
    if |xs| == 1 {
      assert (xs + [x])[1..] == [x];
    } else {
      assert (xs + [x])[1..] == xs[1..] + [x];
      JoinSnoc(xs[1..], x, sep);
    }
  }

  function IndexOf(s: string, c: char): (r: Option<nat>)
    ensures r.None? <==> c !in s
    ensures r.Some? ==> r.value < |s| && s[r.value] == c && c !in s[..r.value]
  {
    if s == [] then None
    else if s[0] == c then Some(0)
    else match IndexOf(s[1..], c)
      case None => None
      case Some(i) => assert s[..i + 1] == [s[0]] + s[1..][..i]; Some(i + 1)
  }

  /** `explode($sep, $s, $limit)` for a one-character separator and a
      positive limit: split at each separator, the last piece keeping the rest. */
  function Explode(sep: char, s: string, limit: nat): (parts: seq<string>)
    requires limit >= 1
    ensures 1 <= |parts| <= limit
    ensures forall i :: 0 <= i < |parts| - 1 ==> sep !in parts[i]
    ensures |parts| < limit ==> sep !in parts[|parts| - 1]
    ensures Join(parts, [sep]) == s
  {
    if limit == 1 then ExplodeWhole(sep, s, limit); [s]
    else match IndexOf(s, sep)
      case None => ExplodeWhole(sep, s, limit); [s]
      case Some(i) =>
        var rest := Explode(sep, s[i + 1..], limit - 1);
        ExplodeCons(sep, s, limit, i, rest);
        [s[..i]] + rest
  }

  ghost predicate ExplodeSpec(sep: char, s: string, limit: nat, parts: seq<string>) {
    && 1 <= |parts| <= limit
    && (forall i :: 0 <= i < |parts| - 1 ==> sep !in parts[i])
    && (|parts| < limit ==> sep !in parts[|parts| - 1])
    && Join(parts, [sep]) == s
  }

  /** The whole string as the only piece, at the limit or without a separator. */
  lemma ExplodeWhole(sep: char, s: string, limit: nat)
    requires limit == 1 || sep !in s
    requires limit >= 1
    ensures ExplodeSpec(sep, s, limit, [s])
  {
  }

  /** The first piece up to the first separator, then the pieces of the rest. */
  lemma ExplodeCons(sep: char, s: string, limit: nat, i: nat, rest: seq<string>)
    requires limit >= 2 && i < |s| && s[i] == sep && sep !in s[..i]
    requires ExplodeSpec(sep, s[i + 1..], limit - 1, rest)
    ensures ExplodeSpec(sep, s, limit, [s[..i]] + rest)
  {
    var parts := [s[..i]] + rest;
    assert parts[1..] == rest;
    assert s == s[..i] + [sep] + s[i + 1..];
    forall j | 0 <= j < |parts| - 1 ensures sep !in parts[j] {
      if j > 0 { assert parts[j] == rest[j - 1]; }
    }
    assert parts[|parts| - 1] == rest[|rest| - 1];
  }

  /** Splitting a join of separator-free pieces gives the pieces back. */
  lemma {:induction false} IndexOfFirst(p: string, sep: char, rest: string)
    requires sep !in p
    ensures IndexOf(p + [sep] + rest, sep) == Some(|p|)
  {
    if p != [] {
      assert (p + [sep] + rest)[1..] == p[1..] + [sep] + rest;
      IndexOfFirst(p[1..], sep, rest);
    }
  }

  /** Splitting a join of separator-free pieces gives the pieces back. */
  lemma ExplodeNoSeparator(sep: char, s: string, limit: nat)
    requires limit >= 1 && sep !in s
    ensures Explode(sep, s, limit) == [s]
  {
    if limit > 1 { assert IndexOf(s, sep) == None; }
  }

  lemma ExplodeFirst(sep: char, p: string, rest: string, limit: nat)
    requires limit >= 2 && sep !in p
    ensures Explode(sep, p + [sep] + rest, limit) == [p] + Explode(sep, rest, limit - 1)
  {
    var s := p + [sep] + rest;
    IndexOfFirst(p, sep, rest);
    assert s[..|p|] == p;
    assert s[|p| + 1..] == rest;
  }

  /** Splitting a join of separator-free pieces gives the pieces back. */
  lemma {:induction false} ExplodeJoin(sep: char, parts: seq<string>, limit: nat)
    requires 1 <= |parts| <= limit
    requires forall i :: 0 <= i < |parts| ==> sep !in parts[i]
    ensures Explode(sep, Join(parts, [sep]), limit) == parts
  {
    if |parts| > 1 {
      var sub := parts[1..];
      var rest := Join(sub, [sep]);
      var l: nat := limit - 1;
      assert Join(parts, [sep]) == parts[0] + [sep] + rest;
      ExplodeFirst(sep, parts[0], rest, limit);
      assert forall i :: 0 <= i < |sub| ==> sep !in sub[i];
      ExplodeJoin(sep, sub, l);
      assert [parts[0]] + sub == parts;
    } else {
      ExplodeNoSeparator(sep, parts[0], limit);
    }
  }

  // ---------------------------------------------------------------------
  // Percent-encoding (`rawurlencode`, `urlencode`) over byte strings

  predicate IsAlnum(c: char) {
    ('A' <= c <= 'Z') || ('a' <= c <= 'z') || ('0' <= c <= '9')
  }

  /** The characters `rawurlencode` leaves alone (RFC 3986 unreserved). */
  predicate IsRawSafe(c: char) {
    IsAlnum(c) || c == '-' || c == '_' || c == '.' || c == '~'
  }

  /** The characters `urlencode` leaves alone. */
  predicate IsFormSafe(c: char) {
    IsAlnum(c) || c == '-' || c == '_' || c == '.'
  }

  predicate IsUpperHex(c: char) {
    ('0' <= c <= '9') || ('A' <= c <= 'F')
  }

  function HexDigit(d: nat): (c: char)
    requires d < 16
    ensures IsUpperHex(c)
  {
    ['0', '1', '2', '3', '4', '5', '6', '7', '8', '9', 'A', 'B', 'C', 'D', 'E', 'F'][d]
  }

  lemma HexDigitValue(d: nat)
    requires d < 16
    ensures HexValue(HexDigit(d)) == d
  {
  }

  function HexValue(c: char): (d: nat)
    requires IsUpperHex(c)
    ensures d < 16 && HexDigit(d) == c
  {
    if c <= '9' then c as int - '0' as int else c as int - 'A' as int + 10
  }

  /** `%XX` for one byte; PHP strings are byte strings, so only the low
      eight bits of a character are encoded. */
  function Escape(c: char): (r: string)
    ensures |r| == 3 && r[0] == '%' && IsUpperHex(r[1]) && IsUpperHex(r[2])
  {
    var b := c as int % 256;
    ['%', HexDigit(b / 16), HexDigit(b % 16)]
  }

  /** What a percent-encoder may emit: `safe` characters, `%` and upper-case hex digits. */
  predicate EncodedWith(r: string, plus: bool) {
    forall i :: 0 <= i < |r| ==>
      (if plus then IsFormSafe(r[i]) || r[i] == '+' else IsRawSafe(r[i])) || r[i] == '%' || IsUpperHex(r[i])
  }

  function RawUrlEncode(s: string): (r: string)
    ensures EncodedWith(r, false)
    ensures '&' !in r && '=' !in r
  {
    if s == [] then ""
    else (if IsRawSafe(s[0]) then [s[0]] else Escape(s[0])) + RawUrlEncode(s[1..])
  }

  function UrlEncode(s: string): (r: string)
    ensures EncodedWith(r, true)
    ensures '&' !in r && '"' !in r && ',' !in r
  {
    if s == [] then ""
    else (if IsFormSafe(s[0]) then [s[0]] else if s[0] == ' ' then "+" else Escape(s[0])) + UrlEncode(s[1..])
  }

  /** `rawurldecode` (`plus` false) and `urldecode` (`plus` true) on well-formed input. */
  function PercentDecode(s: string, plus: bool): string
    decreases |s|
  {
    if s == [] then ""
    else if s[0] == '%' && |s| >= 3 && IsUpperHex(s[1]) && IsUpperHex(s[2]) then
      [(HexValue(s[1]) * 16 + HexValue(s[2])) as char] + PercentDecode(s[3..], plus)
    else if plus && s[0] == '+' then " " + PercentDecode(s[1..], plus)
    else [s[0]] + PercentDecode(s[1..], plus)
  }

  predicate IsByteString(s: string) {
    forall i :: 0 <= i < |s| ==> s[i] as int < 256
  }

  lemma EscapeDecodes(c: char, rest: string, plus: bool)
    requires c as int < 256
    ensures PercentDecode(Escape(c) + rest, plus) == [c] + PercentDecode(rest, plus)
  {
    var e := Escape(c) + rest;
    var b := c as int;
    assert b % 256 == b;
    assert e[0] == '%' && e[1] == HexDigit(b / 16) && e[2] == HexDigit(b % 16) && e[3..] == rest;
    HexDigitValue(b / 16);
    HexDigitValue(b % 16);
    assert (b / 16) * 16 + b % 16 == b;
    assert PercentDecode(e, plus) == [((b / 16) * 16 + b % 16) as char] + PercentDecode(rest, plus);
  }

  /** `rawurldecode` inverts `rawurlencode`. */
  lemma {:induction false} RawUrlEncodeRoundTrip(s: string)
    requires IsByteString(s)
    ensures PercentDecode(RawUrlEncode(s), false) == s
  {
    if s != [] {
      assert IsByteString(s[1..]);
      RawUrlEncodeRoundTrip(s[1..]);
      if IsRawSafe(s[0]) {
        assert ([s[0]] + RawUrlEncode(s[1..]))[1..] == RawUrlEncode(s[1..]);
      } else {
        EscapeDecodes(s[0], RawUrlEncode(s[1..]), false);
      }
    }
  }

  /** `urldecode` inverts `urlencode`. */
  lemma {:induction false} UrlEncodeRoundTrip(s: string)
    requires IsByteString(s)
    ensures PercentDecode(UrlEncode(s), true) == s
  {
    if s != [] {
      assert IsByteString(s[1..]);
      UrlEncodeRoundTrip(s[1..]);
      if IsFormSafe(s[0]) || s[0] == ' ' {
        var e := (if IsFormSafe(s[0]) then [s[0]] else "+") + UrlEncode(s[1..]);
        assert e[1..] == UrlEncode(s[1..]);
      } else {
        EscapeDecodes(s[0], UrlEncode(s[1..]), true);
      }
    }
  }

  lemma {:induction false} RawUrlEncodeInjective(s: string, t: string)
    requires IsByteString(s) && IsByteString(t)
    requires RawUrlEncode(s) == RawUrlEncode(t)
    ensures s == t
  {
    RawUrlEncodeRoundTrip(s);
    RawUrlEncodeRoundTrip(t);
  }
}
