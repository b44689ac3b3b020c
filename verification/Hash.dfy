/** The rehashing table of named objects. */
module HashTables {
  import opened Integers
  import opened Options

  const HASH_MIN_SIZE: nat := 4

  datatype Entry<V> = Entry(code: int, key: string, value: V)

  type Bucket<V> = seq<Entry<V>>

  // ----- all entries of a table -----

  ghost function Total<V>(table: seq<Bucket<V>>): multiset<Entry<V>> {
    if |table| == 0 then multiset{} else Total(table[..|table| - 1]) + multiset(table[|table| - 1])
  }

  /** How many buckets are in use. */
  ghost function Used<V>(table: seq<Bucket<V>>): nat {
    if |table| == 0 then 0 else Used(table[..|table| - 1]) + if table[|table| - 1] == [] then 0 else 1
  }

  lemma {:induction false} UpdateTotal<V>(table: seq<Bucket<V>>, n: nat, b: Bucket<V>)
    requires n < |table|
    ensures multiset(table[n]) <= Total(table)
    ensures Total(table[n := b]) == Total(table) - multiset(table[n]) + multiset(b)
  {
    hide Total;
    var init := table[..|table| - 1];
    TotalStep(table);
    TotalStep(table[n := b]);
    if n == |table| - 1 {
      assert table[n := b][..|table| - 1] == init;
      Cancelled(Total(init), multiset(table[n]), multiset(b));
    } else {
      assert table[n := b][..|table| - 1] == init[n := b];
      UpdateTotal(init, n, b);
      Regroup(Total(init), multiset(table[n]), multiset(b), multiset(table[|table| - 1]));
    }
  }

  lemma TotalStep<V>(table: seq<Bucket<V>>)
    requires |table| > 0
    ensures Total(table) == Total(table[..|table| - 1]) + multiset(table[|table| - 1])
  {}

  lemma Cancelled<T>(x: multiset<T>, y: multiset<T>, z: multiset<T>)
    ensures y <= x + y && x + y - y + z == x + z
  {}

  lemma Regroup<T>(x: multiset<T>, y: multiset<T>, z: multiset<T>, w: multiset<T>)
    requires y <= x
    ensures y <= x + w && (x - y + z) + w == x + w - y + z
  {}

  lemma {:induction false} UpdateUsed<V>(table: seq<Bucket<V>>, n: nat, b: Bucket<V>)
    requires n < |table|
    ensures Used(table[n := b]) == Used(table) - (if table[n] == [] then 0 else 1) + if b == [] then 0 else 1
  {
    var init := table[..|table| - 1];
    if n == |table| - 1 {
      assert table[n := b][..|table| - 1] == init;
    } else {
      assert table[n := b][..|table| - 1] == init[n := b];
      UpdateUsed(init, n, b);
    }
  }

  lemma {:induction false} EntryPlace<V>(table: seq<Bucket<V>>, e: Entry<V>)
    ensures e in Total(table) <==> exists n :: 0 <= n < |table| && e in table[n]
  {
    if |table| > 0 {
      var init := table[..|table| - 1];
      EntryPlace(init, e);
      if e in Total(init) {
        var n :| 0 <= n < |init| && e in init[n];
        assert e in table[n];
      }
      forall n | 0 <= n < |table| && e in table[n] ensures e in Total(table) {
        if n < |init| { assert e in init[n]; }
      }
    }
  }

  /** The entries hold exactly the pairs of the map, each of them once. */
  ghost predicate Represents<V>(all: multiset<Entry<V>>, m: map<string, V>) {
    Sound(all, m) && Complete(all, m) && Unique(all)
  }

  ghost predicate Sound<V>(all: multiset<Entry<V>>, m: map<string, V>) {
    forall e :: e in all ==> all[e] == 1 && e.key in m && m[e.key] == e.value
  }

  ghost predicate Complete<V>(all: multiset<Entry<V>>, m: map<string, V>) {
    forall k :: k in m ==> exists e :: e in all && e.key == k
  }

  ghost predicate Unique<V>(all: multiset<Entry<V>>) {
    forall e, f :: e in all && f in all && e.key == f.key ==> e == f
  }

  lemma AddSound<V>(all: multiset<Entry<V>>, m: map<string, V>, e: Entry<V>)
    requires Sound(all, m) && e.key !in m
    ensures Sound(all + multiset{e}, m[e.key := e.value]) && forall f :: f in all ==> f.key != e.key
  {}

  lemma AddComplete<V>(all: multiset<Entry<V>>, m: map<string, V>, e: Entry<V>)
    requires Complete(all, m)
    ensures Complete(all + multiset{e}, m[e.key := e.value])
  {
    var more, m' := all + multiset{e}, m[e.key := e.value];
    forall k | k in m' ensures exists f :: f in more && f.key == k {
      if k == e.key { assert e in more; } else { var f :| f in all && f.key == k; assert f in more; }
    }
  }

  lemma AddUnique<V>(all: multiset<Entry<V>>, e: Entry<V>)
    requires Unique(all) && forall f :: f in all ==> f.key != e.key
    ensures Unique(all + multiset{e})
  {
    var more := all + multiset{e};
    forall f, g | f in more && g in more && f.key == g.key ensures f == g {
      assert (f in all || f == e) && (g in all || g == e);
    }
  }

  lemma RepresentsAdd<V>(all: multiset<Entry<V>>, m: map<string, V>, e: Entry<V>)
    requires Represents(all, m) && e.key !in m
    ensures Represents(all + multiset{e}, m[e.key := e.value])
  {
    hide Sound, Complete, Unique;
    AddSound(all, m, e);
    AddComplete(all, m, e);
    AddUnique(all, e);
  }

  lemma RepresentsDel<V>(all: multiset<Entry<V>>, m: map<string, V>, e: Entry<V>)
    requires Represents(all, m) && e in all
    ensures e.key in m && Represents(all - multiset{e}, m - {e.key})
  {
    var less, m' := all - multiset{e}, m - {e.key};
    forall f | f in less ensures less[f] == 1 && f in all && f != e && f.key in m' && m'[f.key] == f.value {
      assert f in all && f != e;
    }
    forall k | k in m' ensures exists f :: f in less && f.key == k {
      var f :| f in all && f.key == k; assert f in less;
    }
  }

  lemma RepresentsPut<V>(all: multiset<Entry<V>>, m: map<string, V>, e: Entry<V>, f: Entry<V>)
    requires Represents(all, m) && e in all && f.key == e.key
    ensures Represents(all - multiset{e} + multiset{f}, m[f.key := f.value])
  {
    hide Represents;
    RepresentsDel(all, m, e);
    RepresentsAdd(all - multiset{e}, m - {e.key}, f);
    assert (m - {e.key})[f.key := f.value] == m[f.key := f.value];
  }

  // ----- locations -----

  /** Entries carry the code of their key and lie in the bucket of that code. */
  ghost predicate Located<V>(code: string -> int, table: seq<Bucket<V>>, size: nat)
    requires size > 0
  {
    forall n, e :: 0 <= n < |table| && e in table[n] ==> e.code == code(e.key) && e.code % size == n
  }

  lemma FoundInBucket<V>(code: string -> int, table: seq<Bucket<V>>, m: map<string, V>, key: string)
    requires |table| > 0 && Located(code, table, |table|) && Represents(Total(table), m)
    ensures key in m <==> exists e :: e in table[code(key) % |table|] && e.key == key
  {
    var loc := code(key) % |table|;
    if key in m {
      var e :| e in Total(table) && e.key == key;
      EntryPlace(table, e);
      var n :| 0 <= n < |table| && e in table[n];
      assert n == loc;
    }
    if exists e :: e in table[loc] && e.key == key {
      var e :| e in table[loc] && e.key == key;
      EntryPlace(table, e);
    }
  }

  /** Removes an entry; the last one takes its place. */
  function DelAt<V>(b: Bucket<V>, idx: nat): (r: Bucket<V>)
    requires idx < |b|
    ensures |r| == |b| - 1
  {
    if idx == |b| - 1 then b[..idx] else b[..|b| - 1][idx := b[|b| - 1]]
  }

  lemma DelAtContents<V>(b: Bucket<V>, idx: nat)
    requires idx < |b|
    ensures multiset(DelAt(b, idx)) == multiset(b) - multiset{b[idx]}
  {
    var init, last := b[..|b| - 1], b[|b| - 1];
    assert b == init + [last];
    AddContents(init, last);
    if idx < |b| - 1 {
      ReplaceContents(init, idx, last);
      Replaced(multiset(init), b[idx], last);
    }
  }

  lemma Replaced<T>(x: multiset<T>, a: T, b: T)
    requires a in x
    ensures x - multiset{a} + multiset{b} == x + multiset{b} - multiset{a}
  {}

  lemma DelAtItems<V>(b: Bucket<V>, idx: nat)
    requires idx < |b|
    ensures forall e :: e in DelAt(b, idx) ==> e in b
    ensures forall i :: 0 <= i < idx ==> DelAt(b, idx)[i] == b[i]
  {
    forall i | 0 <= i < |b| - 1 ensures DelAt(b, idx)[i] in b {}
  }

  lemma AddContents<V>(b: Bucket<V>, e: Entry<V>)
    ensures multiset(b + [e]) == multiset(b) + multiset{e}
  {}

  lemma ReplaceContents<V>(b: Bucket<V>, i: nat, e: Entry<V>)
    requires i < |b|
    ensures multiset(b[i := e]) == multiset(b) - multiset{b[i]} + multiset{e}
    ensures forall f :: f in b[i := e] ==> f == e || f in b
  {}

  // ----- doubling -----

  /** In a table of twice the size an entry stays or moves up by the old size. */
  lemma ModDouble(code: int, size: nat, n: int)
    requires size > 0 && code % size == n
    ensures code % (2 * size) == n || code % (2 * size) == n + size
  {
    var q, m := code / (2 * size), code % (2 * size);
    assert code == q * (2 * size) + m;
    assert q * (2 * size) == (2 * q) * size;
    if m < size {
      DivMod(2 * q, m, size);
    } else {
      assert (2 * q) * size + size == (2 * q + 1) * size;
      DivMod(2 * q + 1, m - size, size);
    }
  }

  /** Placement while buckets are split: those before n and the new ones are final, in bucket n
      the first e entries are. */
  ghost predicate Splitting<V>(code: string -> int, table: seq<Bucket<V>>, size: nat, n: nat, e: nat)
    requires size > 0 && |table| == 2 * size
  {
    forall j, i :: 0 <= j < |table| && 0 <= i < |table[j]| ==>
      Placed(code, table[j][i], size, j, j < n || j >= size || (j == n && i < e))
  }

  ghost predicate Placed<V>(code: string -> int, x: Entry<V>, size: nat, j: int, final: bool)
    requires size > 0
  {
    x.code == code(x.key) && if final then x.code % (2 * size) == j else x.code % size == j
  }

  /** Moving entry e of bucket n up to bucket n + size. */
  lemma MoveEntry<V>(code: string -> int, table: seq<Bucket<V>>, size: nat, n: nat, e: nat, table': seq<Bucket<V>>)
    requires size > 0 && |table| == 2 * size && n < size && Splitting(code, table, size, n, e) && e < |table[n]|
    requires table[n][e].code % (2 * size) != n
    requires table' == table[n + size := table[n + size] + [table[n][e]]][n := DelAt(table[n], e)]
    ensures table[n][e].code % (2 * size) == n + size
    ensures Splitting(code, table', size, n, e) && Total(table') == Total(table)
    ensures Used(table') == Used(table) + (if table[n + size] == [] then 1 else 0) - (if |table[n]| == 1 then 1 else 0)
  {
    hide Total, Used, DelAt, Splitting;
    MovesUp(code, table, size, n, e);
    MoveTotal(table, n, n + size, e);
    MoveUsed(table, n, n + size, e);
    MovedPlaces(code, table, size, n, e, table');
  }

  lemma MovesUp<V>(code: string -> int, table: seq<Bucket<V>>, size: nat, n: nat, e: nat)
    requires size > 0 && |table| == 2 * size && n < size && Splitting(code, table, size, n, e) && e < |table[n]|
    requires table[n][e].code % (2 * size) != n
    ensures table[n][e].code % (2 * size) == n + size
  {
    assert Placed(code, table[n][e], size, n, false);
    ModDouble(table[n][e].code, size, n);
  }

  lemma MoveTotal<V>(table: seq<Bucket<V>>, n: nat, far: nat, e: nat)
    requires n < |table| && far < |table| && far != n && e < |table[n]|
    ensures Total(table[far := table[far] + [table[n][e]]][n := DelAt(table[n], e)]) == Total(table)
  {
    hide Total, DelAt;
    var x := table[n][e];
    var mid := table[far := table[far] + [x]];
    UpdateTotal(table, far, table[far] + [x]);
    AddContents(table[far], x);
    UpdateTotal(mid, n, DelAt(table[n], e));
    DelAtContents(table[n], e);
    MovedTotal(Total(table), multiset(table[far]), multiset(table[n]), x, Total(mid),
               Total(mid[n := DelAt(table[n], e)]));
  }

  lemma MoveUsed<V>(table: seq<Bucket<V>>, n: nat, far: nat, e: nat)
    requires n < |table| && far < |table| && far != n && e < |table[n]|
    ensures Used(table[far := table[far] + [table[n][e]]][n := DelAt(table[n], e)])
         == Used(table) + (if table[far] == [] then 1 else 0) - (if |table[n]| == 1 then 1 else 0)
  {
    hide Used, DelAt;
    var b := table[far] + [table[n][e]];
    var mid := table[far := b];
    assert b != [] && table[n] != [] && mid[n] == table[n];
    UpdateUsed(table, far, b);
    UpdateUsed(mid, n, DelAt(table[n], e));
    assert DelAt(table[n], e) == [] <==> |table[n]| == 1;
  }

  lemma MovedTotal<T>(all: multiset<T>, far: multiset<T>, near: multiset<T>, x: T, mid: multiset<T>, end: multiset<T>)
    requires far <= all && near <= mid && x in near && mid == all - far + (far + multiset{x})
    requires end == mid - near + (near - multiset{x})
    ensures end == all
  {}

  lemma MovedPlaces<V>(code: string -> int, table: seq<Bucket<V>>, size: nat, n: nat, e: nat, table': seq<Bucket<V>>)
    requires size > 0 && |table| == 2 * size && n < size && Splitting(code, table, size, n, e) && e < |table[n]|
    requires table[n][e].code % (2 * size) == n + size
    requires table' == table[n + size := table[n + size] + [table[n][e]]][n := DelAt(table[n], e)]
    ensures Splitting(code, table', size, n, e)
  {
    hide Placed;
    forall j, i | 0 <= j < |table'| && 0 <= i < |table'[j]|
      ensures Placed(code, table'[j][i], size, j, j < n || j >= size || (j == n && i < e))
    {
      if j == n {
        var k := if i == e then |table[n]| - 1 else i;
        assert table'[n][i] == table[n][k];
        assert Placed(code, table[n][k], size, n, k < e);
      } else if j == n + size && i == |table[j]| {
        assert Placed(code, table[n][e], size, n, false);
        Settled(code, table[n][e], size, n, n + size);
      } else {
        assert table'[j][i] == table[j][i];
      }
    }
  }

  lemma Settled<V>(code: string -> int, x: Entry<V>, size: nat, n: int, far: int)
    requires size > 0 && Placed(code, x, size, n, false) && x.code % (2 * size) == far
    ensures Placed(code, x, size, far, true)
  {}

  lemma StartSplit<V>(code: string -> int, table: seq<Bucket<V>>, empty: seq<Bucket<V>>)
    requires |table| > 0 && Located(code, table, |table|) && |empty| == |table| && forall j :: 0 <= j < |empty| ==>
      empty[j] == []
    ensures Splitting(code, table + empty, |table|, 0, 0)
    ensures Total(table + empty) == Total(table) && Used(table + empty) == Used(table)
  {
    EmptyBuckets(table, empty);
  }

  lemma {:induction false} EmptyBuckets<V>(table: seq<Bucket<V>>, empty: seq<Bucket<V>>)
    requires forall j :: 0 <= j < |empty| ==> empty[j] == []
    ensures Total(table + empty) == Total(table) && Used(table + empty) == Used(table)
  {
    if |empty| == 0 {
      assert table + empty == table;
    } else {
      var more := table + empty;
      assert more[..|more| - 1] == table + empty[..|empty| - 1];
      EmptyBuckets(table, empty[..|empty| - 1]);
    }
  }

  lemma EntrySettled<V>(code: string -> int, table: seq<Bucket<V>>, size: nat, n: nat, e: nat)
    requires size > 0 && |table| == 2 * size && n < size && Splitting(code, table, size, n, e) && e < |table[n]|
    requires table[n][e].code % (2 * size) == n
    ensures Splitting(code, table, size, n, e + 1)
  {
    hide Placed;
    assert Placed(code, table[n][e], size, n, false);
    Settled(code, table[n][e], size, n, n);
  }

  lemma BucketSettled<V>(code: string -> int, table: seq<Bucket<V>>, size: nat, n: nat)
    requires size > 0 && |table| == 2 * size && n < size && Splitting(code, table, size, n, |table[n]|)
    ensures Splitting(code, table, size, n + 1, 0)
  {
    hide Placed;
  }

  lemma AllSettled<V>(code: string -> int, table: seq<Bucket<V>>, size: nat)
    requires size > 0 && |table| == 2 * size && Splitting(code, table, size, size, 0)
    ensures Located(code, table, 2 * size)
  {
    forall n, e | 0 <= n < |table| && e in table[n] ensures e.code == code(e.key) && e.code % (2 * size) == n {
      var i :| 0 <= i < |table[n]| && table[n][i] == e;
      assert Placed(code, table[n][i], size, n, n < size || n >= size || (n == size && i < 0));
    }
  }

  /** A binary number of buckets, as for the given size, and at least the smallest one. */
  method InitialSize(size: nat) returns (b: nat)
    requires size > 0
    ensures IsPow2(b) && b >= HASH_MIN_SIZE
  {
    var n := size;
    b := 1;
    while n != 1
      invariant n > 0 && IsPow2(b)
    {
      n := n / 2;
      b := 2 * b;
    }
    if b < HASH_MIN_SIZE { b := HASH_MIN_SIZE; }
    assert IsPow2(4) by { assert IsPow2(1); assert IsPow2(2); }
  }

  lemma NoEntries<V>(table: seq<Bucket<V>>)
    requires forall j :: 0 <= j < |table| ==> table[j] == []
    ensures Total(table) == multiset{} && Used(table) == 0
  {
    EmptyBuckets<V>([], table);
    assert [] + table == table;
  }

  // ----- halving -----

  /** The keys that lie in the first half of a table of 2 b buckets. */
  function LowerHalf<V>(code: string -> int, m: map<string, V>, b: nat): map<string, V>
    requires b > 0
  {
    map k | k in m && code(k) % (2 * b) < b :: m[k]
  }

  lemma LowerKept<V>(code: string -> int, m: map<string, V>, b: nat)
    requires b > 0
    ensures LowerHalf(code, m, b) == m <==> forall k :: k in m ==> code(k) % (2 * b) < b
  {
    var half := LowerHalf(code, m, b);
    if half == m {
      forall k | k in m ensures code(k) % (2 * b) < b { assert k in half; }
    }
    if forall k :: k in m ==> code(k) % (2 * b) < b { assert half.Keys == m.Keys; }
  }

  /** A key whose code is 5 is lost when eight buckets become four. */
  lemma LowerInput<V>(code: string -> int, key: string, value: V)
    requires code(key) == 5
    ensures LowerHalf(code, map[key := value], 4) == map[]
  {
    assert key !in LowerHalf(code, map[key := value], 4);
  }

  lemma HalfSize(size: nat)
    requires IsPow2(size) && size > HASH_MIN_SIZE
    ensures size == 2 * (size / 2) && IsPow2(size / 2) && size / 2 >= HASH_MIN_SIZE
  {
    assert IsPow2(size / 2) && size / 2 % 2 == 0;
  }

  lemma ModHalf(c: int, b: nat)
    requires b > 0 && c % (2 * b) < b
    ensures c % b == c % (2 * b)
  {
    ModDouble(c, b, c % b);
  }

  lemma {:induction false} TotalPrefix<V>(table: seq<Bucket<V>>, b: nat)
    requires b <= |table|
    ensures Total(table[..b]) <= Total(table)
    decreases |table|
  {
    if b < |table| {
      var init := table[..|table| - 1];
      TotalPrefix(init, b);
      assert init[..b] == table[..b];
    } else {
      assert table[..b] == table;
    }
  }

  /** The lower half of a table holds the keys of the lower half. */
  lemma LowerTable<V>(code: string -> int, table: seq<Bucket<V>>, m: map<string, V>, b: nat)
    requires b > 0 && |table| == 2 * b && Located(code, table, 2 * b) && Represents(Total(table), m)
    ensures Located(code, table[..b], b) && Represents(Total(table[..b]), LowerHalf(code, m, b))
  {
    hide Total, Located, Sound, Complete, Unique, LowerHalf;
    TotalPrefix(table, b);
    LowerLocated(code, table, b);
    LowerSound(code, table, m, b);
    LowerComplete(code, table, m, b);
    LowerUnique(Total(table[..b]), Total(table));
  }

  lemma LowerLocated<V>(code: string -> int, table: seq<Bucket<V>>, b: nat)
    requires b > 0 && |table| == 2 * b && Located(code, table, 2 * b)
    ensures Located(code, table[..b], b)
  {
    var lower := table[..b];
    forall n, e: Entry<V> | 0 <= n < |lower| && e in lower[n] ensures e.code == code(e.key) && e.code % b == n {
      assert e in table[n];
      ModHalf(e.code, b);
    }
  }

  lemma LowerUnique<V>(lower: multiset<Entry<V>>, all: multiset<Entry<V>>)
    requires lower <= all && Unique(all)
    ensures Unique(lower)
  {
    forall e, f | e in lower && f in lower && e.key == f.key ensures e == f { assert e in all && f in all; }
  }

  lemma LowerSound<V>(code: string -> int, table: seq<Bucket<V>>, m: map<string, V>, b: nat)
    requires b > 0 && |table| == 2 * b && Located(code, table, 2 * b) && Sound(Total(table), m)
    requires Total(table[..b]) <= Total(table)
    ensures Sound(Total(table[..b]), LowerHalf(code, m, b))
  {
    hide Total;
    var lower, half, all := table[..b], LowerHalf(code, m, b), Total(table);
    forall e | e in Total(lower) ensures Total(lower)[e] == 1 && e.key in half && half[e.key] == e.value {
      EntryPlace(lower, e);
      var n :| 0 <= n < |lower| && e in lower[n];
      assert e in table[n] && e in all;
    }
  }

  lemma LowerComplete<V>(code: string -> int, table: seq<Bucket<V>>, m: map<string, V>, b: nat)
    requires b > 0 && |table| == 2 * b && Located(code, table, 2 * b) && Complete(Total(table), m)
    ensures Complete(Total(table[..b]), LowerHalf(code, m, b))
  {
    hide Total;
    var lower := table[..b];
    forall k | k in LowerHalf(code, m, b) ensures exists e :: e in Total(lower) && e.key == k {
      var e :| e in Total(table) && e.key == k;
      EntryPlace(table, e);
      var n :| 0 <= n < |table| && e in table[n];
      assert e in lower[n];
      EntryPlace(lower, e);
    }
  }

  class HashTable<V> {
    const code: string -> int
    var buckets: nat
    var fill: nat
    var keys: nat
    var table: seq<Bucket<V>>
    /** The finite map that the table stands for. */
    ghost var contents: map<string, V>

    ghost predicate Valid()
      reads this
    {
      && IsPow2(buckets) && buckets >= HASH_MIN_SIZE && |table| == buckets
      && Located(code, table, buckets) && Represents(Total(table), contents)
      && fill == Used(table) && keys == |contents|
    }

    constructor (code: string -> int, size: nat)
      requires size > 0
      ensures Valid() && contents == map[] && this.code == code
    {
      hide IsPow2, Total, Used;
      var b := InitialSize(size);
      this.code := code;
      buckets, fill, keys, contents := b, 0, 0, map[];
      table := seq(b, _ => []);
      new;
      NoEntries(table);
    }

    /** The position of a key in its bucket, or the size of the bucket. */
    method Search(key: string) returns (e: nat)
      requires Valid()
      ensures e <= |table[code(key) % buckets]|
      ensures e < |table[code(key) % buckets]| ==>
        key in contents && table[code(key) % buckets][e] == Entry(code(key), key, contents[key])
      ensures e == |table[code(key) % buckets]| ==> key !in contents
    {
      hide Represents, Located, Total, Used, IsPow2;
      var c := code(key);
      var bucket := table[c % buckets];
      e := 0;
      while e < |bucket|
        invariant e <= |bucket| && forall i :: 0 <= i < e ==> !(bucket[i].code == c && bucket[i].key == key)
      {
        if bucket[e].code == c && bucket[e].key == key {
          EntryHeld(code, table, contents, c % buckets, e);
          return;
        }
        e := e + 1;
      }
      CodesMatch(code, table, buckets, c % buckets);
      FoundInBucket(code, table, contents, key);
    }

    /** Hash table lookup. */
    method Get(key: string) returns (v: Option<V>)
      requires Valid()
      ensures v == if key in contents then Some(contents[key]) else None
    {
      hide Represents, Located, Total, Used, IsPow2;
      var e := Search(key);
      var bucket := table[code(key) % buckets];
      v := if e < |bucket| then Some(bucket[e].value) else None;
    }

    /** Moves the entries of bucket n that belong further up. */
    method SplitBucket(n: nat, size: nat)
      requires size > 0 && |table| == 2 * size == buckets && n < size && Splitting(code, table, size, n, 0)
      requires fill == Used(table)
      modifies this`table, this`fill
      ensures |table| == 2 * size && Splitting(code, table, size, n + 1, 0) && fill == Used(table)
      ensures Total(table) == old(Total(table))
    {
      hide Splitting, Total, Used, DelAt;
      var e := 0;
      while e < |table[n]|
        invariant |table| == 2 * size && e <= |table[n]| && Splitting(code, table, size, n, e)
        invariant fill == Used(table) && Total(table) == old(Total(table))
        decreases |table[n]| - e
      {
        var x := table[n][e];
        var loc := x.code % buckets;
        if n != loc {
          ghost var before := table;
          ghost var table' := table[n + size := table[n + size] + [x]][n := DelAt(table[n], e)];
          MoveEntry(code, table, size, n, e, table');
          table := table[loc := table[loc] + [x]];
          if |table[loc]| == 1 { fill := fill + 1; }
          table := table[n := DelAt(table[n], e)];
          assert table == table';
          if |table[n]| == 0 { fill := fill - 1; }
        } else {
          EntrySettled(code, table, size, n, e);
          e := e + 1;
        }
      }
      BucketSettled(code, table, size, n);
    }

    /** Doubles the table and relocates its entries. */
    method RehashExpand()
      requires Valid()
      modifies this`table, this`fill, this`buckets
      ensures Valid() && buckets == 2 * old(buckets) && Total(table) == old(Total(table))
    {
      hide Splitting, Total, Used, Represents, Located;
      var size := buckets;
      buckets := buckets * 2;
      var empty: seq<Bucket<V>> := seq(size, _ => []);
      StartSplit(code, table, empty);
      table := table + empty;
      for n := 0 to size
        invariant |table| == 2 * size == buckets && Splitting(code, table, size, n, 0) && fill == Used(table)
        invariant Total(table) == old(Total(table))
      {
        SplitBucket(n, size);
      }
      AllSettled(code, table, size);
    }

    /** Adds an entry or replaces the value of a known key. */
    method Put(key: string, value: V) returns (previous: Option<V>)
      requires Valid()
      modifies this
      ensures Valid() && contents == old(contents)[key := value]
      ensures previous == if key in old(contents) then Some(old(contents)[key]) else None
    {
      hide Represents, Located, Total, Used, IsPow2;
      var c := code(key);
      var loc := c % buckets;
      var e := Search(key);
      var bucket := table[loc];
      var entry := Entry(c, key, value);
      if e < |bucket| {
        previous := Some(bucket[e].value);
        PutReplaced(code, table, contents, loc, e, entry);
        table := table[loc := bucket[e := entry]];
        contents := contents[key := value];
        return;
      }
      previous := None;
      PutAdded(code, table, contents, loc, entry);
      table := table[loc := bucket + [entry]];
      contents := contents[key := value];
      keys := keys + 1;
      if |table[loc]| == 1 {
        fill := fill + 1;
        if fill > buckets / 2 + buckets / 4 { RehashExpand(); }
      }
    }

    /** Removes an entry.  `shrinks` tells that the table is so sparse that the original goes
        on to shrink it. */
    method Remove(key: string) returns (previous: Option<V>, shrinks: bool)
      requires Valid()
      modifies this
      ensures Valid() && contents == old(contents) - {key} && buckets == old(buckets)
      ensures previous == if key in old(contents) then Some(old(contents)[key]) else None
      ensures shrinks <==> fill < old(fill) && fill < buckets / 4 && buckets > HASH_MIN_SIZE
    {
      hide Represents, Located, Total, Used, IsPow2, DelAt;
      shrinks := false;
      var loc := code(key) % buckets;
      var e := Search(key);
      var bucket := table[loc];
      if e < |bucket| {
        previous := Some(bucket[e].value);
        EntryDeleted(code, table, contents, loc, e);
        table := table[loc := DelAt(bucket, e)];
        contents := contents - {key};
        if |table[loc]| == 0 {
          fill := fill - 1;
          shrinks := fill < buckets / 4 && buckets > HASH_MIN_SIZE;
        }
        keys := keys - 1;
      } else {
        previous := None;
      }
    }

    /** Halves the table.  The entries of the upper half go to the lower one and are released
        with their old bucket, so that those of the lower half are left. */
    method RehashShrink()
      requires Valid() && buckets > HASH_MIN_SIZE
      modifies this
      ensures buckets == old(buckets) / 2 && |table| == buckets >= HASH_MIN_SIZE && IsPow2(buckets)
      ensures contents == LowerHalf(code, old(contents), buckets)
      ensures Located(code, table, buckets) && Represents(Total(table), contents) && keys == old(keys)
      ensures contents == old(contents) <==>
        forall key :: key in old(contents) ==> code(key) % old(buckets) < old(buckets) / 2
    {
      hide Represents, Located, Total, Used, IsPow2, LowerHalf;
      HalfSize(buckets);
      LowerTable(code, table, contents, buckets / 2);
      LowerKept(code, contents, buckets / 2);
      buckets := buckets / 2;
      contents := LowerHalf(code, contents, buckets);
      table := table[..buckets];
      fill := *;
    }

    /** Deletes the key and halves the table if few buckets are used. */
    method Del(key: string) returns (previous: Option<V>, shrinks: bool)
      requires Valid()
      modifies this
      ensures previous == if key in old(contents) then Some(old(contents)[key]) else None
      ensures !shrinks ==> Valid() && contents == old(contents) - {key} && buckets == old(buckets)
      ensures shrinks ==>
        && buckets == old(buckets) / 2 > 0 && contents == LowerHalf(code, old(contents) - {key}, buckets)
        && Located(code, table, buckets) && Represents(Total(table), contents)
      ensures contents == old(contents) - {key} <==>
        !shrinks || forall k :: k in old(contents) && k != key ==> code(k) % old(buckets) < old(buckets) / 2
    {
      hide Represents, Located, Total, Used, IsPow2, LowerHalf;
      previous, shrinks := Remove(key);
      if shrinks { RehashShrink(); }
    }
  }

  lemma EntryHeld<V>(code: string -> int, table: seq<Bucket<V>>, m: map<string, V>, n: nat, e: nat)
    requires |table| > 0 && Located(code, table, |table|) && Represents(Total(table), m) && n < |table|
    requires e < |table[n]|
    ensures var x := table[n][e]; x in Total(table) && x.key in m && x == Entry(code(x.key), x.key, m[x.key])
  {
    hide Total;
    assert table[n][e] in table[n];
    EntryPlace(table, table[n][e]);
  }

  lemma CodesMatch<V>(code: string -> int, table: seq<Bucket<V>>, size: nat, n: nat)
    requires size > 0 && Located(code, table, size) && n < |table|
    ensures forall i :: 0 <= i < |table[n]| ==> table[n][i].code == code(table[n][i].key)
  {
    assert forall i :: 0 <= i < |table[n]| ==> table[n][i] in table[n];
  }

  lemma LocatedUpdate<V>(code: string -> int, table: seq<Bucket<V>>, size: nat, n: nat, b: Bucket<V>, entry: Entry<V>)
    requires size > 0 && Located(code, table, size) && n < |table| && forall x :: x in b ==> x == entry || x in table[n]
    requires entry.code == code(entry.key) && entry.code % size == n
    ensures Located(code, table[n := b], size)
  {}

  lemma PutReplaced<V>(code: string -> int, table: seq<Bucket<V>>, m: map<string, V>, n: nat, e: nat, entry: Entry<V>)
    requires |table| > 0 && Located(code, table, |table|) && Represents(Total(table), m) && n < |table|
    requires e < |table[n]|
    requires entry.key == table[n][e].key && entry.code == code(entry.key) && entry.code % |table| == n
    ensures var table' := table[n := table[n][e := entry]];
      && Located(code, table', |table|) && Represents(Total(table'), m[entry.key := entry.value])
      && Used(table') == Used(table)
      && |m[entry.key := entry.value]| == |m|
  {
    hide Represents, Total, Used, Located;
    var b := table[n];
    UpdateTotal(table, n, b[e := entry]);
    UpdateUsed(table, n, b[e := entry]);
    ReplaceContents(b, e, entry);
    EntryHeld(code, table, m, n, e);
    ReplacedTotal(Total(table), multiset(b), b[e], entry);
    RepresentsPut(Total(table), m, b[e], entry);
    LocatedUpdate(code, table, |table|, n, b[e := entry], entry);
    assert m[entry.key := entry.value].Keys == m.Keys;
  }

  lemma ReplacedTotal<T>(all: multiset<T>, b: multiset<T>, x: T, y: T)
    requires b <= all && x in b
    ensures all - b + (b - multiset{x} + multiset{y}) == all - multiset{x} + multiset{y}
  {}

  lemma PutAdded<V>(code: string -> int, table: seq<Bucket<V>>, m: map<string, V>, n: nat, entry: Entry<V>)
    requires |table| > 0 && Located(code, table, |table|) && Represents(Total(table), m) && n < |table|
    requires entry.key !in m
    requires entry.code == code(entry.key) && entry.code % |table| == n
    ensures var table' := table[n := table[n] + [entry]];
      && Located(code, table', |table|) && Represents(Total(table'), m[entry.key := entry.value])
      && Used(table') == Used(table) + (if table[n] == [] then 1 else 0)
      && |m[entry.key := entry.value]| == |m| + 1
  {
    hide Represents, Total, Used, Located;
    var b := table[n];
    UpdateTotal(table, n, b + [entry]);
    UpdateUsed(table, n, b + [entry]);
    AddContents(b, entry);
    AddedTotal(Total(table), multiset(b), entry);
    RepresentsAdd(Total(table), m, entry);
    LocatedUpdate(code, table, |table|, n, b + [entry], entry);
    assert m[entry.key := entry.value].Keys == m.Keys + {entry.key};
  }

  lemma AddedTotal<T>(all: multiset<T>, b: multiset<T>, x: T)
    requires b <= all
    ensures all - b + (b + multiset{x}) == all + multiset{x}
  {}

  lemma EntryDeleted<V>(code: string -> int, table: seq<Bucket<V>>, m: map<string, V>, n: nat, e: nat)
    requires |table| > 0 && Located(code, table, |table|) && Represents(Total(table), m) && n < |table|
    requires e < |table[n]|
    ensures var table' := table[n := DelAt(table[n], e)];
      && Located(code, table', |table|) && Represents(Total(table'), m - {table[n][e].key})
      && Used(table') == Used(table) - (if |table[n]| == 1 then 1 else 0)
      && table[n][e].key in m && |m - {table[n][e].key}| == |m| - 1
  {
    hide Represents, Total, Used, Located, DelAt;
    var b := table[n];
    var x := b[e];
    UpdateTotal(table, n, DelAt(b, e));
    UpdateUsed(table, n, DelAt(b, e));
    DelAtContents(b, e);
    DelAtItems(b, e);
    EntryHeld(code, table, m, n, e);
    DeletedTotal(Total(table), multiset(b), x);
    RepresentsDel(Total(table), m, x);
    DeletedPlace(code, table, n, e);
    assert (m - {x.key}).Keys == m.Keys - {x.key};
  }

  lemma DeletedPlace<V>(code: string -> int, table: seq<Bucket<V>>, n: nat, e: nat)
    requires |table| > 0 && Located(code, table, |table|) && n < |table| && e < |table[n]|
    ensures Located(code, table[n := DelAt(table[n], e)], |table|)
  {
    hide DelAt;
    DelAtItems(table[n], e);
  }

  lemma DeletedTotal<T>(all: multiset<T>, b: multiset<T>, x: T)
    requires b <= all && x in b
    ensures all - b + (b - multiset{x}) == all - multiset{x}
  {}

  // ----- iteration -----

  /** All entries in the order of the buckets. */
  function Flat<V>(table: seq<Bucket<V>>): seq<Entry<V>> {
    if |table| == 0 then [] else Flat(table[..|table| - 1]) + table[|table| - 1]
  }

  lemma {:induction false} FlatTotal<V>(table: seq<Bucket<V>>)
    ensures multiset(Flat(table)) == Total(table)
  {
    if |table| > 0 { FlatTotal(table[..|table| - 1]); }
  }

  /** The number of entries before bucket b. */
  function Before<V>(table: seq<Bucket<V>>, b: nat): nat
    requires b <= |table|
  {
    |Flat(table[..b])|
  }

  lemma BeforeStep<V>(table: seq<Bucket<V>>, b: nat)
    requires b < |table|
    ensures Before(table, b + 1) == Before(table, b) + |table[b]|
  {
    assert table[..b + 1][..b] == table[..b];
  }

  lemma {:induction false} FlatAt<V>(table: seq<Bucket<V>>, b: nat, e: nat)
    requires b < |table| && e < |table[b]|
    ensures Before(table, b) + e < |Flat(table)| && Flat(table)[Before(table, b) + e] == table[b][e]
  {
    var init := table[..|table| - 1];
    if b < |table| - 1 {
      FlatAt(init, b, e);
      assert init[..b] == table[..b];
    }
  }

  class HashIterator<V> {
    const hash: HashTable<V>
    var bucket: nat
    var entry: nat
    var current: Option<Entry<V>>

    constructor (h: HashTable<V>)
      ensures hash == h && current == None
    {
      hash, bucket, entry, current := h, 0, 0, None;
    }

    /** The iterator stands at entry p of the table. */
    ghost predicate At(p: nat)
      reads this, hash
    {
      && bucket < |hash.table| && entry < |hash.table[bucket]| && p == Before(hash.table, bucket) + entry
      && current == Some(hash.table[bucket][entry])
    }

    /** Moves to the first entry of the first used bucket from n0 on. */
    method Advance(n0: nat, ghost p: nat)
      requires n0 <= |hash.table| && p == Before(hash.table, n0)
      modifies this
      ensures if p < |Flat(hash.table)| then At(p) else current == None
    {
      hide Flat;
      var n := n0;
      while n < |hash.table|
        invariant n0 <= n <= |hash.table| && Before(hash.table, n) == p
      {
        if |hash.table[n]| > 0 {
          bucket, entry := n, 0;
          current := Some(hash.table[n][0]);
          FlatAt(hash.table, n, 0);
          return;
        }
        BeforeStep(hash.table, n);
        n := n + 1;
      }
      assert hash.table[..n] == hash.table;
      current := None;
    }

    /** Makes the first item current. */
    method ToFirst()
      modifies this
      ensures if |Flat(hash.table)| > 0 then At(0) else current == None
    {
      assert hash.table[..0] == [];
      Advance(0, 0);
    }

    /** Makes the succeeding item current. */
    method Next(ghost p: nat)
      requires At(p)
      modifies this
      ensures if p + 1 < |Flat(hash.table)| then At(p + 1) else current == None
    {
      hide Flat, Before;
      if entry < |hash.table[bucket]| - 1 {
        FlatAt(hash.table, bucket, entry + 1);
        entry := entry + 1;
        current := Some(hash.table[bucket][entry]);
      } else {
        BeforeStep(hash.table, bucket);
        Advance(bucket + 1, p + 1);
      }
    }

    /** A whole iteration visits every entry of the table once. */
    method Visit() returns (visited: seq<Entry<V>>)
      modifies this
      ensures visited == Flat(hash.table) && multiset(visited) == Total(hash.table)
    {
      hide Flat, Total;
      visited := [];
      ToFirst();
      while current.Some?
        invariant |visited| <= |Flat(hash.table)| && visited == Flat(hash.table)[..|visited|]
        invariant if |visited| < |Flat(hash.table)| then At(|visited|) else current == None
        decreases |Flat(hash.table)| - |visited|
      {
        FlatAt(hash.table, bucket, entry);
        ghost var p := |visited|;
        visited := visited + [current.value];
        Next(p);
      }
      FlatTotal(hash.table);
    }
  }
}
