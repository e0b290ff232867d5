/**
 * The decoded manifest. A JSON document as `json_decode($text, true)` hands it
 * to PHP, and the operations on PHP arrays with string keys that the hook
 * configuration relies on: lookup, assignment by key, and `array_merge`.
 *
 * A PHP array with string keys is an ordered association list: assigning to a
 * key that is present overwrites the value in place, assigning to a new key
 * appends it.
 */
module Json {
  import opened Wrappers

  /** A JSON value. Object members are kept as written, in document order and duplicates included. */
  datatype Json =
    | JNull
    | JBool(b: bool)
    | JNum(literal: string)
    | JStr(s: string)
    | JArr(items: seq<Json>)
    | JObj(members: seq<(string, Json)>)

  /** A PHP array with string keys, in insertion order. */
  type Assoc = seq<(string, Json)>

  function KeyList(a: Assoc): seq<string>
  {
    seq(|a|, i requires 0 <= i < |a| => a[i].0)
  }

  function ValueList(a: Assoc): seq<Json>
  {
    seq(|a|, i requires 0 <= i < |a| => a[i].1)
  }

  predicate Unique(ks: seq<string>)
  {
    forall i, j :: 0 <= i < j < |ks| ==> ks[i] != ks[j]
  }

  lemma KeyListConcat(a: Assoc, b: Assoc)
    ensures KeyList(a + b) == KeyList(a) + KeyList(b)
  {
  }

  lemma KeyListPrefix(a: Assoc, i: nat)
    requires i <= |a|
    ensures KeyList(a[..i]) == KeyList(a)[..i]
  {
  }

  /** A pair stored in the array puts its key in the key list. */
  lemma PairKeyInKeyList(a: Assoc, k: string, v: Json)
    requires (k, v) in a
    ensures k in KeyList(a)
  {
    var i :| 0 <= i < |a| && a[i] == (k, v);
    assert KeyList(a)[i] == k;
  }

  /** In an array with unique keys a key holds one value. */
  lemma UniqueKeyOneValue(a: Assoc, k: string, v: Json, w: Json)
    requires Unique(KeyList(a))
    requires (k, v) in a && (k, w) in a
    ensures v == w
  {
    var i :| 0 <= i < |a| && a[i] == (k, v);
    var j :| 0 <= j < |a| && a[j] == (k, w);
    assert KeyList(a)[i] == KeyList(a)[j];
  }

  /** In an array with unique keys no key occurs before its own position. */
  lemma UniqueKeyNotEarlier(a: Assoc, i: nat)
    requires Unique(KeyList(a)) && i < |a|
    ensures a[i].0 !in KeyList(a[..i])
  {
    KeyListPrefix(a, i);
    forall j | 0 <= j < i
      ensures KeyList(a)[..i][j] != a[i].0
    {
      assert KeyList(a)[..i][j] == KeyList(a)[j] != KeyList(a)[i] == a[i].0;
    }
  }

  /** `$a[$k]` with `array_key_exists($k, $a)`: the value stored under k, if any. */
  function Find(a: Assoc, k: string): (r: Option<Json>)
    ensures r.Some? <==> k in KeyList(a)
    ensures r.Some? ==> (k, r.value) in a
  {
    if a == [] then None
    else
      KeyListConcat([a[0]], a[1..]);
      assert a == [a[0]] + a[1..];
      assert KeyList(a)[0] == a[0].0;
      if a[0].0 == k then Some(a[0].1) else Find(a[1..], k)
  }

  /** The value of the last pair whose key is k: what a later assignment leaves behind. */
  function FindLast(a: Assoc, k: string): (r: Option<Json>)
    ensures r.Some? <==> k in KeyList(a)
    ensures r.Some? ==> exists i :: 0 <= i < |a| && a[i] == (k, r.value) && k !in KeyList(a[i + 1..])
  {
    if a == [] then None
    else
      var n := |a| - 1;
      KeyListConcat(a[..n], [a[n]]);
      assert a == a[..n] + [a[n]];
      assert KeyList(a)[n] == a[n].0;
      if a[n].0 == k then
        assert a[n + 1..] == [];
        Some(a[n].1)
      else
        var r := FindLast(a[..n], k);
        if r.Some? then
          var i :| 0 <= i < n && a[..n][i] == (k, r.value) && k !in KeyList(a[..n][i + 1..]);
          assert a[i + 1..] == a[..n][i + 1..] + [a[n]];
          KeyListConcat(a[..n][i + 1..], [a[n]]);
          r
        else r
  }

  /** With unique keys the first and the last pair for a key are the same pair. */
  lemma UniqueFindLast(a: Assoc, k: string)
    requires Unique(KeyList(a))
    ensures FindLast(a, k) == Find(a, k)
  {
    var f, l := Find(a, k), FindLast(a, k);
    if f.Some? {
      var i :| 0 <= i < |a| && a[i] == (k, l.value) && k !in KeyList(a[i + 1..]);
      UniqueKeyOneValue(a, k, f.value, l.value);
    }
  }

  /** `$a[$k] = $v`: overwrite the value in place when k is present, otherwise append the pair. */
  function Put(a: Assoc, k: string, v: Json): (r: Assoc)
    ensures KeyList(r) == if k in KeyList(a) then KeyList(a) else KeyList(a) + [k]
    ensures k !in KeyList(a) ==> r == a + [(k, v)]
  {
    if a == [] then [(k, v)]
    else
      KeyListConcat([a[0]], a[1..]);
      assert a == [a[0]] + a[1..];
      assert KeyList(a)[0] == a[0].0;
      if a[0].0 == k then
        KeyListConcat([(k, v)], a[1..]);
        [(k, v)] + a[1..]
      else
        var rest := Put(a[1..], k, v);
        KeyListConcat([a[0]], rest);
        [a[0]] + rest
  }

  /** After `$a[$k] = $v`, k holds v and every other key holds what it held before. */
  lemma {:induction false} PutFind(a: Assoc, k: string, v: Json, k': string)
    ensures Find(Put(a, k, v), k') == if k' == k then Some(v) else Find(a, k')
  {
    if a != [] && a[0].0 != k {
      PutFind(a[1..], k, v, k');
    }
  }

  /** Assign every pair of f, in order, into a. */
  function PutAll(a: Assoc, f: Assoc): (r: Assoc)
    ensures forall k :: k in KeyList(r) <==> k in KeyList(a) || k in KeyList(f)
  {
    if f == [] then a
    else
      var n := |f| - 1;
      KeyListSnoc(f);
      Put(PutAll(a, f[..n]), f[n].0, f[n].1)
  }

  lemma KeyListSnoc(f: Assoc)
    requires f != []
    ensures KeyList(f) == KeyList(f[..|f| - 1]) + [f[|f| - 1].0]
  {
  }

  lemma FindLastSnoc(f: Assoc, k: string)
    requires f != []
    ensures FindLast(f, k) == if k == f[|f| - 1].0 then Some(f[|f| - 1].1) else FindLast(f[..|f| - 1], k)
  {
  }

  lemma PutAllSnoc(a: Assoc, f: Assoc)
    requires f != []
    ensures PutAll(a, f) == Put(PutAll(a, f[..|f| - 1]), f[|f| - 1].0, f[|f| - 1].1)
  {
  }

  /** Assignments never introduce a second copy of a key. */
  lemma {:induction false} PutAllUnique(a: Assoc, f: Assoc)
    requires Unique(KeyList(a))
    ensures Unique(KeyList(PutAll(a, f)))
  {
    if f != [] {
      PutAllUnique(a, f[..|f| - 1]);
      PutAllSnoc(a, f);
    }
  }

  /** `json_decode` of an object: one entry per member name, at its first position, holding its last value. */
  function Decode(members: seq<(string, Json)>): (r: Assoc)
    ensures Unique(KeyList(r))
  {
    assert Unique(KeyList([]));
    PutAllUnique([], members);
    PutAll([], members)
  }

  /** `array_merge` of three arrays with string keys. */
  function ArrayMerge(first: Assoc, second: Assoc, third: Assoc): (r: Assoc)
    ensures Unique(KeyList(r))
  {
    Decode(first + second + third)
  }

  /** The keys of ks in the order of their first occurrences, each once. */
  function Dedup(ks: seq<string>): (d: seq<string>)
    ensures Unique(d)
    ensures forall x :: x in d <==> x in ks
  {
    if ks == [] then []
    else
      var n := |ks| - 1;
      assert ks == ks[..n] + [ks[n]];
      var d := Dedup(ks[..n]);
      if ks[n] in d then d else d + [ks[n]]
  }

  lemma DedupSnoc(ks: seq<string>, k: string)
    ensures Dedup(ks + [k]) == if k in Dedup(ks) then Dedup(ks) else Dedup(ks) + [k]
  {
    assert (ks + [k])[..|ks|] == ks;
  }

  /** The position of the first occurrence of x in ks. */
  function FirstIndex(ks: seq<string>, x: string): (i: nat)
    requires x in ks
    ensures i < |ks| && ks[i] == x && x !in ks[..i]
  {
    if ks[0] == x then 0
    else
      assert ks == [ks[0]] + ks[1..];
      var j := FirstIndex(ks[1..], x);
      assert ks[..j + 1] == [ks[0]] + ks[1..][..j];
      j + 1
  }

  /** Every key of ks occurs in all, and ks lists them by increasing first position in all. */
  predicate InFirstOccurrenceOrder(ks: seq<string>, all: seq<string>)
  {
    && (forall i :: 0 <= i < |ks| ==> ks[i] in all)
    && (forall i, j :: 0 <= i < j < |ks| ==> FirstIndex(all, ks[i]) < FirstIndex(all, ks[j]))
  }

  lemma FirstIndexAppend(p: seq<string>, q: seq<string>, x: string)
    requires x in p
    ensures FirstIndex(p + q, x) == FirstIndex(p, x)
  {
    var i, j := FirstIndex(p + q, x), FirstIndex(p, x);
    forall m | 0 <= m < i
      ensures (p + q)[m] != x
    {
      assert (p + q)[..i][m] == (p + q)[m];
    }
    forall m | 0 <= m < j
      ensures p[m] != x
    {
      assert p[..j][m] == p[m];
    }
    assert (p + q)[j] == x;
  }

  lemma OrderPrefix(ks: seq<string>, all: seq<string>, n: nat)
    requires InFirstOccurrenceOrder(ks, all) && n <= |ks|
    ensures InFirstOccurrenceOrder(ks[..n], all)
  {
    forall i, j | 0 <= i < j < n
      ensures FirstIndex(all, ks[..n][i]) < FirstIndex(all, ks[..n][j])
    {
      assert ks[..n][i] == ks[i] && ks[..n][j] == ks[j];
    }
  }

  /** A key placed after keys that all occur first before it keeps the order. */
  lemma OrderSnoc(ks: seq<string>, x: string, all: seq<string>)
    requires InFirstOccurrenceOrder(ks, all) && x in all
    requires forall i :: 0 <= i < |ks| ==> FirstIndex(all, ks[i]) < FirstIndex(all, x)
    ensures InFirstOccurrenceOrder(ks + [x], all)
  {
    var e := ks + [x];
    forall i | 0 <= i < |e|
      ensures e[i] in all
    {
      if i < |ks| {
        assert e[i] == ks[i];
      }
    }
    forall i, j | 0 <= i < j < |e|
      ensures FirstIndex(all, e[i]) < FirstIndex(all, e[j])
    {
      assert e[i] == ks[i];
      if j < |ks| {
        assert e[j] == ks[j];
      }
    }
  }

  /** Deduplication keeps first occurrences in their original order. */
  lemma {:induction false} DedupOrder(ks: seq<string>)
    ensures InFirstOccurrenceOrder(Dedup(ks), ks)
  {
    if ks != [] {
      var n := |ks| - 1;
      var p := ks[..n];
      assert ks == p + [ks[n]];
      DedupOrder(p);
      var d := Dedup(p);
      forall y | y in p
        ensures FirstIndex(ks, y) == FirstIndex(p, y)
      {
        FirstIndexAppend(p, [ks[n]], y);
      }
      if ks[n] !in d {
        assert FirstIndex(ks, ks[n]) == n;
        var e := d + [ks[n]];
        forall i, j | 0 <= i < j < |e|
          ensures FirstIndex(ks, e[i]) < FirstIndex(ks, e[j])
        {
          assert e[i] in p;
          if j < |d| {
            assert e[j] in p;
          }
        }
      } else {
        forall i, j | 0 <= i < j < |d|
          ensures FirstIndex(ks, d[i]) < FirstIndex(ks, d[j])
        {
          assert d[i] in p && d[j] in p;
        }
      }
    }
  }

  /** A list without repetitions is its own deduplication. */
  lemma {:induction false} DedupOfUnique(u: seq<string>)
    requires Unique(u)
    ensures Dedup(u) == u
  {
    if u != [] {
      var n := |u| - 1;
      DedupOfUnique(u[..n]);
      assert u == u[..n] + [u[n]];
      forall j | 0 <= j < n
        ensures u[..n][j] != u[n]
      {
        assert u[..n][j] == u[j];
      }
    }
  }

  /** Assignments keep the keys in first-occurrence order. */
  lemma {:induction false} PutAllKeys(a: Assoc, f: Assoc)
    requires Unique(KeyList(a))
    ensures KeyList(PutAll(a, f)) == Dedup(KeyList(a) + KeyList(f))
  {
    if f == [] {
      assert KeyList(a) + KeyList(f) == KeyList(a);
      DedupOfUnique(KeyList(a));
    } else {
      var n := |f| - 1;
      var ks, k := KeyList(a) + KeyList(f[..n]), f[n].0;
      PutAllKeys(a, f[..n]);
      KeyListSnoc(f);
      PutAllSnoc(a, f);
      assert KeyList(a) + KeyList(f) == ks + [k];
      DedupSnoc(ks, k);
    }
  }

  /** After the assignments, a key holds the value of its last assignment, or its old value if none. */
  lemma {:induction false} PutAllFind(a: Assoc, f: Assoc, k: string)
    ensures Find(PutAll(a, f), k) == if k in KeyList(f) then FindLast(f, k) else Find(a, k)
  {
    if f != [] {
      var n := |f| - 1;
      PutAllFind(a, f[..n], k);
      PutFind(PutAll(a, f[..n]), f[n].0, f[n].1, k);
      KeyListSnoc(f);
      FindLastSnoc(f, k);
      PutAllSnoc(a, f);
    }
  }

  /** The last pair for k in a + b is in b when b has one. */
  lemma {:induction false} FindLastAppend(a: Assoc, b: Assoc, k: string)
    ensures FindLast(a + b, k) == if k in KeyList(b) then FindLast(b, k) else FindLast(a, k)
  {
    KeyListConcat(a, b);
    if b == [] {
      assert a + b == a;
    } else {
      var n := |b| - 1;
      assert (a + b)[..|a + b| - 1] == a + b[..n];
      KeyListSnoc(b);
      FindLastSnoc(b, k);
      FindLastSnoc(a + b, k);
      FindLastAppend(a, b[..n], k);
      KeyListConcat(a, b[..n]);
    }
  }

  /** json_decode keeps, for each member name, the value written last. */
  lemma DecodeFind(members: seq<(string, Json)>, k: string)
    ensures Find(Decode(members), k) == FindLast(members, k)
  {
    PutAllFind([], members, k);
  }

  /** Reading merged arrays: the value comes from the last array that has the key. */
  lemma ArrayMergeFind(first: Assoc, second: Assoc, third: Assoc, k: string)
    requires Unique(KeyList(first)) && Unique(KeyList(second)) && Unique(KeyList(third))
    ensures Find(ArrayMerge(first, second, third), k) ==
      if k in KeyList(third) then Find(third, k)
      else if k in KeyList(second) then Find(second, k)
      else Find(first, k)
  {
    DecodeFind(first + second + third, k);
    FindLastAppend(first + second, third, k);
    FindLastAppend(first, second, k);
    UniqueFindLast(first, k);
    UniqueFindLast(second, k);
    UniqueFindLast(third, k);
  }

  /** Merged arrays list each key once, at the position where it first appeared. */
  lemma ArrayMergeKeys(first: Assoc, second: Assoc, third: Assoc)
    ensures KeyList(ArrayMerge(first, second, third)) == Dedup(KeyList(first) + KeyList(second) + KeyList(third))
    ensures InFirstOccurrenceOrder(KeyList(ArrayMerge(first, second, third)), KeyList(first) + KeyList(second) + KeyList(third))
  {
    assert Unique(KeyList([]));
    PutAllKeys([], first + second + third);
    KeyListConcat(first + second, third);
    KeyListConcat(first, second);
    assert KeyList([]) + KeyList(first + second + third) == KeyList(first) + KeyList(second) + KeyList(third);
    DedupOrder(KeyList(first) + KeyList(second) + KeyList(third));
  }

  /** The pairs of a whose key is one of names, in their order. */
  function Restrict(a: Assoc, names: seq<string>): (r: Assoc)
    ensures forall p :: p in r ==> p in a && p.0 in names
    ensures forall p :: p in a && p.0 in names ==> p in r
  {
    if a == [] then []
    else
      var n := |a| - 1;
      assert a == a[..n] + [a[n]];
      var kept := Restrict(a[..n], names);
      if a[n].0 in names then kept + [a[n]] else kept
  }

  lemma RestrictSnoc(a: Assoc, x: (string, Json), names: seq<string>)
    ensures Restrict(a + [x], names) == if x.0 in names then Restrict(a, names) + [x] else Restrict(a, names)
  {
    assert (a + [x])[..|a|] == a;
  }

  lemma RestrictKeys(a: Assoc, k: string, names: seq<string>)
    ensures k in KeyList(Restrict(a, names)) <==> k in KeyList(a) && k in names
  {
    var r := Restrict(a, names);
    if k in KeyList(r) {
      var i :| 0 <= i < |r| && KeyList(r)[i] == k;
      assert r[i] in r;
      PairKeyInKeyList(a, k, r[i].1);
    }
    if k in KeyList(a) && k in names {
      var i :| 0 <= i < |a| && KeyList(a)[i] == k;
      assert a[i] in a;
      PairKeyInKeyList(r, k, a[i].1);
    }
  }

  lemma {:induction false} RestrictUnique(a: Assoc, names: seq<string>)
    requires Unique(KeyList(a))
    ensures Unique(KeyList(Restrict(a, names)))
  {
    if a != [] {
      var n := |a| - 1;
      KeyListPrefix(a, n);
      assert Unique(KeyList(a[..n]));
      RestrictUnique(a[..n], names);
      UniqueKeyNotEarlier(a, n);
      RestrictKeys(a[..n], a[n].0, names);
      KeyListConcat(Restrict(a[..n], names), [a[n]]);
    }
  }

  /** Restricting keeps the value of every listed key and drops every other key. */
  lemma RestrictFind(a: Assoc, k: string, names: seq<string>)
    requires Unique(KeyList(a))
    ensures Find(Restrict(a, names), k) == if k in names then Find(a, k) else None
  {
    var r := Restrict(a, names);
    RestrictKeys(a, k, names);
    if k in names && k in KeyList(a) {
      var v, w := Find(a, k).value, Find(r, k).value;
      UniqueKeyOneValue(a, k, v, w);
    }
  }

  /** Restricting keeps the remaining keys in their relative order. */
  lemma {:induction false} RestrictOrder(a: Assoc, names: seq<string>, all: seq<string>)
    requires InFirstOccurrenceOrder(KeyList(a), all)
    ensures InFirstOccurrenceOrder(KeyList(Restrict(a, names)), all)
  {
    if a != [] {
      var n := |a| - 1;
      var p := a[..n];
      assert a == p + [a[n]];
      KeyListPrefix(a, n);
      OrderPrefix(KeyList(a), all, n);
      RestrictOrder(p, names, all);
      RestrictSnoc(p, a[n], names);
      if a[n].0 in names {
        var kept := Restrict(p, names);
        KeyListConcat(kept, [a[n]]);
        RestrictedBeforeLast(a, names, all);
        OrderSnoc(KeyList(kept), a[n].0, all);
      }
    }
  }

  lemma RestrictedBeforeLast(a: Assoc, names: seq<string>, all: seq<string>)
    requires a != [] && InFirstOccurrenceOrder(KeyList(a), all)
    ensures a[|a| - 1].0 in all
    ensures var ks := KeyList(Restrict(a[..|a| - 1], names));
      forall i :: 0 <= i < |ks| ==> ks[i] in all && FirstIndex(all, ks[i]) < FirstIndex(all, a[|a| - 1].0)
  {
    var n := |a| - 1;
    var p := a[..n];
    var ks := KeyList(Restrict(p, names));
    KeyListPrefix(a, n);
    assert KeyList(a)[n] == a[n].0;
    forall i | 0 <= i < |ks|
      ensures ks[i] in all && FirstIndex(all, ks[i]) < FirstIndex(all, a[n].0)
    {
      RestrictKeys(p, ks[i], names);
      var j :| 0 <= j < n && KeyList(p)[j] == ks[i];
      assert KeyList(a)[j] == ks[i];
    }
  }

  /**
   * `isset($j[$k]) ? $j[$k] : unset`: the member of an object named k, holding
   * a value other than null. A name that occurs more than once reads as its
   * last member, as in the decoded array (DecodeFind). Indexing anything but
   * an object by a name is unset.
   */
  function Get(j: Json, k: string): (r: Option<Json>)
    ensures r.Some? <==> j.JObj? && k in KeyList(j.members) && FindLast(j.members, k) != Some(JNull)
    ensures r.Some? ==> r.value != JNull && r == FindLast(j.members, k)
  {
    match j
    case JObj(members) =>
      (match FindLast(members, k)
       case Some(v) => if v == JNull then None else Some(v)
       case None => None)
    case _ => None
  }

  /** The member at position i is what the name reads as when no later member has the same name. */
  lemma {:induction false} FindLastAt(m: Assoc, i: nat)
    requires i < |m|
    requires forall j :: i < j < |m| ==> m[j].0 != m[i].0
    ensures FindLast(m, m[i].0) == Some(m[i].1)
  {
    var n := |m| - 1;
    var k := m[i].0;
    FindLastSnoc(m, k);
    if i < n {
      var p := m[..n];
      assert m[n].0 != k;
      assert FindLast(m, k) == FindLast(p, k);
      assert p[i] == m[i];
      forall j | i < j < |p|
        ensures p[j].0 != p[i].0
      {
        assert p[j] == m[j];
      }
      FindLastAt(p, i);
    }
  }

  /** `$o[$k]` under `isset`, where o itself may be unset. */
  function GetIn(o: Option<Json>, k: string): (r: Option<Json>)
    ensures o.None? ==> r.None?
    ensures r.Some? ==> r.value != JNull
  {
    match o
    case None => None
    case Some(j) => Get(j, k)
  }

  /** `isset` on a chain of names: the value reached, if every step is set. */
  function LookupPath(o: Option<Json>, path: seq<string>): (r: Option<Json>)
    ensures path == [] ==> r == o
    ensures o.None? ==> r.None?
    ensures path != [] && r.Some? ==> r.value != JNull
    decreases |path|
  {
    if path == [] then o else LookupPath(GetIn(o, path[0]), path[1..])
  }
}
