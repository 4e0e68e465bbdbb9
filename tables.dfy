/** What the record store's queries mean on a table held as a sequence of rows in
    storage order: the first row whose key matches, the key a new row receives,
    the table with the rows of one key removed, and how many rows carry a key.
    A key is any integer column, given as a function of the row. */
module Tables {
  import opened Records

  /** Index of the first row whose key is `k`, as a filtered query's `first()` finds it. */
  function FindFirst<T>(rows: seq<T>, key: T -> int, k: int): (r: Option<nat>)
    ensures r.Some? ==> r.value < |rows| && key(rows[r.value]) == k
    ensures r.Some? ==> forall j :: 0 <= j < r.value ==> key(rows[j]) != k
    ensures r.None? <==> forall j :: 0 <= j < |rows| ==> key(rows[j]) != k
  {
    if rows == [] then None
    else if key(rows[0]) == k then Some(0)
    else match FindFirst(rows[1..], key, k)
      case None => None
      case Some(i) => Some(i + 1)
  }

  /** The first row whose key is `k`, or `None` when no row has that key. */
  function Lookup<T>(rows: seq<T>, key: T -> int, k: int): (r: Option<T>)
    ensures r.Some? ==> r.value in rows && key(r.value) == k
    ensures r.Some? ==> exists i :: 0 <= i < |rows| && rows[i] == r.value && forall j :: 0 <= j < i ==> key(rows[j]) != k
    ensures r.None? <==> forall j :: 0 <= j < |rows| ==> key(rows[j]) != k
  {
    match FindFirst(rows, key, k)
    case None => None
    case Some(i) => Some(rows[i])
  }

  /** Keys strictly increase along the table: storage order is key order and no
      key occurs twice. */
  ghost predicate KeysAscending<T>(rows: seq<T>, key: T -> int) {
    forall i, j :: 0 <= i < j < |rows| ==> key(rows[i]) < key(rows[j])
  }

  /** The largest key in a non-empty table. */
  function MaxKey<T>(rows: seq<T>, key: T -> int): (m: int)
    requires rows != []
    ensures forall j :: 0 <= j < |rows| ==> key(rows[j]) <= m
    ensures exists j :: 0 <= j < |rows| && key(rows[j]) == m
  {
    if |rows| == 1 then key(rows[0])
    else
      var rest := MaxKey(rows[1..], key);
      assert forall j :: 1 <= j < |rows| ==> key(rows[j]) == key(rows[1..][j - 1]);
      if key(rows[0]) < rest then rest else key(rows[0])
  }

  /** The key the store gives a new row: 1 in an empty table, otherwise one more
      than the largest key in use. */
  function NextKey<T>(rows: seq<T>, key: T -> int): (r: int)
    ensures forall j :: 0 <= j < |rows| ==> key(rows[j]) < r
    ensures rows == [] ==> r == 1
    ensures rows != [] ==> exists j :: 0 <= j < |rows| && key(rows[j]) == r - 1
  {
    if rows == [] then 1 else MaxKey(rows, key) + 1
  }

  /** A row keyed by `NextKey` can be appended without breaking key order. */
  lemma AppendNextKey<T>(rows: seq<T>, key: T -> int, row: T)
    requires KeysAscending(rows, key)
    requires key(row) == NextKey(rows, key)
    ensures KeysAscending(rows + [row], key)
  {
  }

  /** The table without any row whose key is `k`, the other rows kept in order. */
  function Without<T>(rows: seq<T>, key: T -> int, k: int): (r: seq<T>)
    ensures |r| <= |rows|
    ensures forall j :: 0 <= j < |r| ==> key(r[j]) != k
    ensures forall x :: x in r ==> x in rows
    ensures forall j :: 0 <= j < |rows| && key(rows[j]) != k ==> rows[j] in r
    ensures (forall j :: 0 <= j < |rows| ==> key(rows[j]) != k) ==> r == rows
  {
    if rows == [] then []
    else if key(rows[0]) == k then Without(rows[1..], key, k)
    else [rows[0]] + Without(rows[1..], key, k)
  }

  /** When the row at `i` is the only row with its key, removing that key removes
      exactly that row. */
  lemma {:induction false} WithoutAt<T>(rows: seq<T>, key: T -> int, i: nat)
    requires i < |rows|
    requires forall j :: 0 <= j < |rows| && j != i ==> key(rows[j]) != key(rows[i])
    ensures Without(rows, key, key(rows[i])) == rows[..i] + rows[i + 1..]
  {
    var k := key(rows[i]);
    if i == 0 {
      assert forall j :: 0 <= j < |rows[1..]| ==> key(rows[1..][j]) != k by {
        forall j | 0 <= j < |rows[1..]| ensures key(rows[1..][j]) != k {
          assert rows[1..][j] == rows[j + 1];
        }
      }
    } else {
      var tail := rows[1..];
      assert tail[i - 1] == rows[i];
      forall j | 0 <= j < |tail| && j != i - 1
        ensures key(tail[j]) != key(tail[i - 1])
      {
        assert tail[j] == rows[j + 1];
      }
      WithoutAt(tail, key, i - 1);
      assert key(rows[0]) != k;
      assert rows[..i] == [rows[0]] + tail[..i - 1];
      assert rows[i + 1..] == tail[i..];
    }
  }

  /** Removing the rows of key `k` leaves the lookup of every other key as it was
      and makes `k` itself absent. */
  lemma {:induction false} LookupWithout<T>(rows: seq<T>, key: T -> int, k: int, other: int)
    ensures Lookup(Without(rows, key, k), key, k) == None
    ensures other != k ==> Lookup(Without(rows, key, k), key, other) == Lookup(rows, key, other)
  {
    if rows != [] {
      LookupWithout(rows[1..], key, k, other);
      if other != k && key(rows[0]) != k {
        var w := Without(rows, key, k);
        assert w == [rows[0]] + Without(rows[1..], key, k);
        LookupCons(rows[0], Without(rows[1..], key, k), key, other);
        LookupCons(rows[0], rows[1..], key, other);
        assert [rows[0]] + rows[1..] == rows;
      } else if other != k {
        LookupCons(rows[0], rows[1..], key, other);
        assert [rows[0]] + rows[1..] == rows;
      }
    }
  }

  /** Lookup in a table with one more row in front. */
  lemma LookupCons<T>(row: T, rows: seq<T>, key: T -> int, k: int)
    ensures Lookup([row] + rows, key, k) == if key(row) == k then Some(row) else Lookup(rows, key, k)
  {
  }

  /** Lookup in a table with one more row at the end. */
  lemma LookupAppend<T>(rows: seq<T>, row: T, key: T -> int, k: int)
    ensures Lookup(rows + [row], key, k) ==
      if Lookup(rows, key, k).Some? then Lookup(rows, key, k)
      else if key(row) == k then Some(row)
      else None
  {
    var s := rows + [row];
    assert forall j :: 0 <= j < |rows| ==> s[j] == rows[j];
    assert s[|rows|] == row;
    var f := FindFirst(rows, key, k);
    var g := FindFirst(s, key, k);
    if f.Some? {
      assert g.Some? && g.value <= f.value;
      assert g == f;
    } else if key(row) == k {
      assert g == Some(|rows|);
    }
  }

  /** Lookups see only keys: a table whose rows keep their keys finds its rows at
      the same places. */
  lemma FindFirstSameKeys<T>(a: seq<T>, b: seq<T>, key: T -> int, k: int)
    requires |a| == |b|
    requires forall j :: 0 <= j < |a| ==> key(a[j]) == key(b[j])
    ensures FindFirst(a, key, k) == FindFirst(b, key, k)
  {
  }

  /** Number of rows whose key is `k`. */
  function Count<T>(rows: seq<T>, key: T -> int, k: int): (n: nat)
    ensures n == 0 <==> forall j :: 0 <= j < |rows| ==> key(rows[j]) != k
    ensures n <= |rows|
  {
    if rows == [] then 0
    else
      assert forall j :: 1 <= j < |rows| ==> rows[j] == rows[1..][j - 1];
      (if key(rows[0]) == k then 1 else 0) + Count(rows[1..], key, k)
  }

  lemma {:induction false} CountAppend<T>(rows: seq<T>, row: T, key: T -> int, k: int)
    ensures Count(rows + [row], key, k) == Count(rows, key, k) + if key(row) == k then 1 else 0
  {
    if rows != [] {
      assert (rows + [row])[1..] == rows[1..] + [row];
      CountAppend(rows[1..], row, key, k);
    }
  }

  /** Replacing a row by one with the same key keeps every key's count. */
  lemma {:induction false} CountReplaceSameKey<T>(rows: seq<T>, i: nat, row: T, key: T -> int, k: int)
    requires i < |rows|
    requires key(row) == key(rows[i])
    ensures Count(rows[i := row], key, k) == Count(rows, key, k)
  {
    if i > 0 {
      assert rows[i := row][1..] == rows[1..][i - 1 := row];
      CountReplaceSameKey(rows[1..], i - 1, row, key, k);
    } else {
      assert rows[i := row][1..] == rows[1..];
    }
  }
}
