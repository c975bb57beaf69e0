/**
 Rust's `BTreeMap<String, V>` as the sequence of its entries in iteration order. Strings compare
 by Unicode scalar values, which is the order of their UTF-8 bytes.
 */
module SortedMap {
  import opened Wrappers

  datatype Entry<V> = Entry(key: string, value: V)

  predicate Less(a: string, b: string) {
    b != "" && (a == "" || a[0] < b[0] || (a[0] == b[0] && Less(a[1..], b[1..])))
  }

  lemma {:induction false} LessTransitive(a: string, b: string, c: string)
    requires Less(a, b) && Less(b, c)
    ensures Less(a, c)
    decreases |a|
  {
    if a != "" && a[0] == b[0] && b[0] == c[0] { LessTransitive(a[1..], b[1..], c[1..]); }
  }

  lemma {:induction false} LessTotal(a: string, b: string)
    ensures a == b || Less(a, b) || Less(b, a)
    decreases |a|
  {
    if a != "" && b != "" && a[0] == b[0] {
      LessTotal(a[1..], b[1..]);
      if a[1..] == b[1..] { assert a == [a[0]] + a[1..] && b == [b[0]] + b[1..]; }
    }
  }

  lemma {:induction false} LessIrreflexive(a: string)
    ensures !Less(a, a)
  {
    if a != "" { LessIrreflexive(a[1..]); }
  }

  /** One text is less than another where they first differ, or where it ends and the other goes on. */
  lemma {:induction false} LessExactly(a: string, b: string)
    ensures Less(a, b) <==>
            exists k: nat :: k <= |a| && k < |b| && a[..k] == b[..k] && (k == |a| || a[k] < b[k])
    decreases |a|
  {
    if a != "" && b != "" && a[0] == b[0] {
      LessExactly(a[1..], b[1..]);
      if Less(a, b) {
        var k: nat :| k <= |a[1..]| && k < |b[1..]| && a[1..][..k] == b[1..][..k] &&
                      (k == |a[1..]| || a[1..][k] < b[1..][k]);
        assert a[..k + 1] == [a[0]] + a[1..][..k] && b[..k + 1] == [b[0]] + b[1..][..k];
        assert k + 1 == |a| || a[k + 1] < b[k + 1];
      }
      if k: nat :| k <= |a| && k < |b| && a[..k] == b[..k] && (k == |a| || a[k] < b[k]) {
        assert k > 0;
        assert a[1..][..k - 1] == a[..k][1..] && b[1..][..k - 1] == b[..k][1..];
      }
    } else if Less(a, b) {
      assert a[..0] == b[..0];
    } else {
      forall k: nat | 0 < k <= |a| && k < |b|
        ensures a[..k] != b[..k]
      {
        assert a[..k][0] == a[0] && b[..k][0] == b[0];
      }
    }
  }

  /** Strictly increasing keys: no duplicates, iteration in key order. */
  ghost predicate Sorted<V>(m: seq<Entry<V>>) {
    forall i, j | 0 <= i < j < |m| :: Less(m[i].key, m[j].key)
  }

  ghost predicate AllAbove<V>(m: seq<Entry<V>>, key: string) {
    forall i | 0 <= i < |m| :: Less(key, m[i].key)
  }

  ghost predicate AllBelow<V>(m: seq<Entry<V>>, key: string) {
    forall i | 0 <= i < |m| :: Less(m[i].key, key)
  }

  /** `insert`: replace the value of a key that is there, else place the key in order. */
  function Insert<V>(m: seq<Entry<V>>, key: string, value: V): seq<Entry<V>> {
    if m == [] then [Entry(key, value)]
    else if m[0].key == key then [Entry(key, value)] + m[1..]
    else if Less(key, m[0].key) then [Entry(key, value)] + m
    else [m[0]] + Insert(m[1..], key, value)
  }

  /** `get`. */
  function Get<V>(m: seq<Entry<V>>, key: string): Option<V> {
    if m == [] then None
    else if m[0].key == key then Some(m[0].value)
    else Get(m[1..], key)
  }

  lemma {:induction false} InsertAbove<V>(m: seq<Entry<V>>, key: string, value: V, bound: string)
    requires AllAbove(m, bound) && Less(bound, key)
    ensures AllAbove(Insert(m, key, value), bound)
  {
    if m != [] && m[0].key != key && !Less(key, m[0].key) { InsertAbove(m[1..], key, value, bound); }
  }

  lemma SortedCons<V>(e: Entry<V>, m: seq<Entry<V>>)
    requires Sorted(m) && AllAbove(m, e.key)
    ensures Sorted([e] + m)
  {
  }

  lemma SortedTail<V>(m: seq<Entry<V>>)
    requires Sorted(m) && m != []
    ensures Sorted(m[1..]) && AllAbove(m[1..], m[0].key)
  {
  }

  lemma {:induction false} InsertSorted<V>(m: seq<Entry<V>>, key: string, value: V)
    requires Sorted(m)
    ensures Sorted(Insert(m, key, value))
  {
    if m != [] {
      SortedTail(m);
      if m[0].key == key {
        SortedCons(Entry(key, value), m[1..]);
      } else if Less(key, m[0].key) {
        forall i | 0 <= i < |m|
          ensures Less(key, m[i].key)
        {
          if i > 0 { LessTransitive(key, m[0].key, m[i].key); }
        }
        SortedCons(Entry(key, value), m);
      } else {
        LessTotal(key, m[0].key);
        InsertSorted(m[1..], key, value);
        InsertAbove(m[1..], key, value, m[0].key);
        SortedCons(m[0], Insert(m[1..], key, value));
      }
    }
  }

  lemma {:induction false} GetInsert<V>(m: seq<Entry<V>>, key: string, value: V, other: string)
    ensures Get(Insert(m, key, value), other) == if other == key then Some(value) else Get(m, other)
  {
    if m != [] && m[0].key != key {
      if Less(key, m[0].key) {
        assert ([Entry(key, value)] + m)[1..] == m;
      } else {
        GetInsert(m[1..], key, value, other);
      }
    }
  }

  /** Inserting a key beyond all others appends it. */
  lemma {:induction false} InsertLast<V>(m: seq<Entry<V>>, key: string, value: V)
    requires AllBelow(m, key)
    ensures Insert(m, key, value) == m + [Entry(key, value)]
  {
    if m != [] {
      LessIrreflexive(key);
      if Less(key, m[0].key) { LessTransitive(key, m[0].key, key); }
      InsertLast(m[1..], key, value);
      assert m + [Entry(key, value)] == [m[0]] + (m[1..] + [Entry(key, value)]);
    }
  }

  lemma {:induction false} GetIsIndex<V>(m: seq<Entry<V>>, i: nat)
    requires Sorted(m) && i < |m|
    ensures Get(m, m[i].key) == Some(m[i].value)
  {
    if i > 0 {
      LessIrreflexive(m[0].key);
      assert Less(m[0].key, m[i].key);
      GetIsIndex(m[1..], i - 1);
    }
  }

  lemma {:induction false} GetAbove<V>(m: seq<Entry<V>>, key: string)
    requires AllAbove(m, key)
    ensures Get(m, key) == None
  {
    if m != [] {
      LessIrreflexive(key);
      GetAbove(m[1..], key);
    }
  }

  lemma {:induction false} GetBelow<V>(m: seq<Entry<V>>, key: string)
    requires AllBelow(m, key)
    ensures Get(m, key) == None
  {
    if m != [] {
      LessIrreflexive(key);
      GetBelow(m[1..], key);
    }
  }

  lemma {:induction false} GetFound<V>(m: seq<Entry<V>>, key: string)
    ensures Get(m, key).Some? <==> exists i :: 0 <= i < |m| && m[i].key == key
  {
    if m != [] && m[0].key != key {
      GetFound(m[1..], key);
      if Get(m, key).Some? {
        var i :| 0 <= i < |m[1..]| && m[1..][i].key == key;
        assert m[i + 1].key == key;
      }
    }
  }

  lemma {:induction false} GetSnoc<V>(m: seq<Entry<V>>, e: Entry<V>, key: string)
    ensures Get(m + [e], key) ==
            if Get(m, key).Some? then Get(m, key) else if key == e.key then Some(e.value) else None
  {
    if m != [] {
      assert (m + [e])[1..] == m[1..] + [e];
      GetSnoc(m[1..], e, key);
    }
  }

  /** A sorted map is determined by its lookups. */
  lemma {:induction false} Extensional<V>(a: seq<Entry<V>>, b: seq<Entry<V>>)
    requires Sorted(a) && Sorted(b) && forall key :: Get(a, key) == Get(b, key)
    ensures a == b
  {
    if a != [] { assert Get(a, a[0].key).Some?; }
    if b != [] { assert Get(b, b[0].key).Some?; }
    if a != [] && b != [] {
      SortedTail(a);
      SortedTail(b);
      HeadsAgree(a, b);
      forall key
        ensures Get(a[1..], key) == Get(b[1..], key)
      {
        if key == a[0].key {
          GetAbove(a[1..], key);
          GetAbove(b[1..], key);
        } else {
          assert Get(a, key) == Get(b, key);
        }
      }
      Extensional(a[1..], b[1..]);
      assert a == [a[0]] + a[1..] && b == [b[0]] + b[1..];
    }
  }

  lemma {:induction false} HeadsAgree<V>(a: seq<Entry<V>>, b: seq<Entry<V>>)
    requires Sorted(a) && Sorted(b) && a != [] && b != [] && forall key :: Get(a, key) == Get(b, key)
    ensures a[0] == b[0]
  {
    var x, y := a[0].key, b[0].key;
    assert Get(a, x) == Get(b, x) && Get(a, y) == Get(b, y);
    GetFound(b, x);
    GetFound(a, y);
    if x != y {
      var i :| 0 <= i < |b| && b[i].key == x;
      var j :| 0 <= j < |a| && a[j].key == y;
      LessTransitive(x, y, x);
      LessIrreflexive(x);
    }
  }
}
