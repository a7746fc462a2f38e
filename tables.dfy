/** Tables as sequences of rows in ascending primary-key order, and the
    few queries the core runs on them: a `WHERE` filter, the first row of a
    result (`session.scalar`), and `LIMIT`/`OFFSET` pagination. */
module Tables {
  import opened Outcomes

  /** Keys strictly ascending: the order of `ORDER BY id`, and, because it
      is strict, the uniqueness of the primary key. */
  ghost predicate Ascending<T>(rows: seq<T>, key: T -> int) {
    forall i, j :: 0 <= i < j < |rows| ==> key(rows[i]) < key(rows[j])
  }

  /** Every key lies in [1, next): the autoincrement counter starts at 1 and
      is ahead of every row it has numbered. */
  ghost predicate KeysBelow<T>(rows: seq<T>, key: T -> int, next: int) {
    forall i :: 0 <= i < |rows| ==> 1 <= key(rows[i]) < next
  }

  /** `SELECT ... WHERE p`, in table order. */
  function Filter<T>(rows: seq<T>, p: T -> bool): (r: seq<T>)
    ensures |r| <= |rows|
    ensures forall i :: 0 <= i < |r| ==> r[i] in rows && p(r[i])
    ensures forall i :: 0 <= i < |rows| && p(rows[i]) ==> rows[i] in r
  {
    if rows == [] then []
    else
      var rest := Filter(rows[1..], p);
      if p(rows[0]) then [rows[0]] + rest else rest
  }

  /** `session.scalar(SELECT ... WHERE p)`: the first row that satisfies `p`. */
  function FindFirst<T>(rows: seq<T>, p: T -> bool): (r: Option<T>)
    ensures r.None? <==> forall i :: 0 <= i < |rows| ==> !p(rows[i])
    ensures r.Some? ==> exists i :: 0 <= i < |rows| && rows[i] == r.value && p(r.value) &&
                                    forall j :: 0 <= j < i ==> !p(rows[j])
  {
    if rows == [] then None
    else if p(rows[0]) then Some(rows[0])
    else
      var r := FindFirst(rows[1..], p);
      assert forall i :: 0 <= i < |rows| - 1 ==> rows[1..][i] == rows[i + 1];
      r
  }

  function Min(a: int, b: int): int { if a <= b then a else b }

  /** `LIMIT limit OFFSET offset`. */
  function Page<T>(rows: seq<T>, limit: nat, offset: nat): (r: seq<T>)
    ensures |r| == if offset >= |rows| then 0 else Min(limit, |rows| - offset)
    ensures forall i :: 0 <= i < |r| ==> r[i] == rows[offset + i]
  {
    if offset >= |rows| then [] else rows[offset..][..Min(limit, |rows| - offset)]
  }

  /** Rewrites the row whose key is `key(row)`, in place. */
  function Replace<T>(rows: seq<T>, key: T -> int, row: T): (r: seq<T>)
    ensures |r| == |rows|
    ensures forall i :: 0 <= i < |rows| ==> r[i] == if key(rows[i]) == key(row) then row else rows[i]
  {
    seq(|rows|, i requires 0 <= i < |rows| => if key(rows[i]) == key(row) then row else rows[i])
  }

  lemma AscendingTail<T>(rows: seq<T>, key: T -> int)
    requires Ascending(rows, key) && rows != []
    ensures Ascending(rows[1..], key)
    ensures forall i :: 0 <= i < |rows| - 1 ==> rows[1..][i] == rows[i + 1]
  {
  }

  /** A filtered table keeps the table's order. */
  lemma {:induction false} FilterAscending<T>(rows: seq<T>, key: T -> int, p: T -> bool)
    requires Ascending(rows, key)
    ensures Ascending(Filter(rows, p), key)
  {
    if rows != [] {
      AscendingTail(rows, key);
      FilterAscending(rows[1..], key, p);
      var rest := Filter(rows[1..], p);
      if p(rows[0]) {
        var r := [rows[0]] + rest;
        forall i, j | 0 <= i < j < |r| ensures key(r[i]) < key(r[j]) {
          assert r[j] == rest[j - 1] && rest[j - 1] in rows[1..];
          var k :| 0 <= k < |rows[1..]| && rows[1..][k] == rest[j - 1];
          if i > 0 { assert r[i] == rest[i - 1]; }
        }
      }
    }
  }

  lemma {:induction false} FilterAppend<T>(a: seq<T>, b: seq<T>, p: T -> bool)
    ensures Filter(a + b, p) == Filter(a, p) + Filter(b, p)
  {
    if a == [] {
      assert a + b == b;
    } else {
      assert (a + b)[1..] == a[1..] + b;
      FilterAppend(a[1..], b, p);
    }
  }

  lemma {:induction false} FilterAll<T>(rows: seq<T>, p: T -> bool)
    requires forall i :: 0 <= i < |rows| ==> p(rows[i])
    ensures Filter(rows, p) == rows
  {
    if rows != [] {
      FilterAll(rows[1..], p);
    }
  }

  lemma FilterNone<T>(rows: seq<T>, p: T -> bool)
    requires forall i :: 0 <= i < |rows| ==> !p(rows[i])
    ensures Filter(rows, p) == []
  {
  }

  /** The row at index `i` is the only row with its key. */
  lemma KeyUnique<T>(rows: seq<T>, key: T -> int, i: int, j: int)
    requires Ascending(rows, key) && 0 <= i < |rows| && 0 <= j < |rows|
    requires key(rows[i]) == key(rows[j])
    ensures i == j
  {
  }

  /** Removing row `i` by a filter that rejects exactly that row. */
  lemma {:induction false} FilterDropsOne<T>(rows: seq<T>, i: int, p: T -> bool)
    requires 0 <= i < |rows|
    requires forall j :: 0 <= j < |rows| ==> (p(rows[j]) <==> j != i)
    ensures Filter(rows, p) == rows[..i] + rows[i + 1..]
  {
    var tail := rows[1..];
    if i == 0 {
      FilterAll(tail, p);
    } else {
      assert p(rows[0]);
      assert forall j :: 0 <= j < |tail| ==> tail[j] == rows[j + 1];
      FilterDropsOne(tail, i - 1, p);
      assert rows[..i] == [rows[0]] + tail[..i - 1] && tail[i..] == rows[i + 1..];
    }
  }

  /** Any other filter loses at most that row. */
  lemma FilterCountAfterDrop<T>(rows: seq<T>, i: int, q: T -> bool)
    requires 0 <= i < |rows|
    ensures |Filter(rows, q)| == |Filter(rows[..i] + rows[i + 1..], q)| + (if q(rows[i]) then 1 else 0)
  {
    var a, b, c := rows[..i], rows[i + 1..], rows[i..];
    assert |Filter(a + b, q)| == |Filter(a, q)| + |Filter(b, q)| by {
      FilterAppend(a, b, q);
    }
    assert |Filter(rows, q)| == |Filter(a, q)| + |Filter(c, q)| by {
      assert rows == a + c;
      FilterAppend(a, c, q);
    }
    assert |Filter(c, q)| == |Filter(b, q)| + (if q(rows[i]) then 1 else 0) by {
      assert c != [] && c[0] == rows[i] && c[1..] == b;
    }
  }

  /** Appending a row numbered by the counter keeps the table ordered and
      the counter ahead. */
  lemma AppendNext<T>(rows: seq<T>, key: T -> int, next: int, row: T)
    requires Ascending(rows, key) && KeysBelow(rows, key, next)
    requires 1 <= next && key(row) == next
    ensures Ascending(rows + [row], key) && KeysBelow(rows + [row], key, next + 1)
  {
  }

  /** A filter keeps the keys it keeps below the counter. */
  lemma FilterKeysBelow<T>(rows: seq<T>, key: T -> int, next: int, p: T -> bool)
    requires KeysBelow(rows, key, next)
    ensures KeysBelow(Filter(rows, p), key, next)
  {
    var r := Filter(rows, p);
    forall i | 0 <= i < |r| ensures 1 <= key(r[i]) < next {
      var j :| 0 <= j < |rows| && rows[j] == r[i];
    }
  }

  /** Replacing a row by one with the same key keeps every key in place. */
  lemma ReplaceKeys<T>(rows: seq<T>, key: T -> int, row: T, next: int)
    ensures forall i :: 0 <= i < |rows| ==> key(Replace(rows, key, row)[i]) == key(rows[i])
    ensures Ascending(rows, key) ==> Ascending(Replace(rows, key, row), key)
    ensures KeysBelow(rows, key, next) ==> KeysBelow(Replace(rows, key, row), key, next)
  {
  }
}
