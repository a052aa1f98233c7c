/** The orderings behind the two listings: professionals by social name and
    appointments by date. Both become a sort of rows keyed by a sequence of
    integers (code points, or year/month/day), compared lexicographically,
    with the primary key breaking ties. */
module Ordering {

  /** Strict lexicographic order; a proper prefix comes first. */
  predicate LexLess(a: seq<int>, b: seq<int>)
    decreases |a|
  {
    if |a| == 0 then |b| > 0
    else if |b| == 0 then false
    else a[0] < b[0] || (a[0] == b[0] && LexLess(a[1..], b[1..]))
  }

  lemma {:induction false} LexIrreflexive(a: seq<int>)
    ensures !LexLess(a, a)
    decreases |a|
  {
    if |a| > 0 {
      LexIrreflexive(a[1..]);
    }
  }

  lemma {:induction false} LexTransitive(a: seq<int>, b: seq<int>, c: seq<int>)
    requires LexLess(a, b) && LexLess(b, c)
    ensures LexLess(a, c)
    decreases |a|
  {
    if |a| > 0 && |b| > 0 && |c| > 0 && a[0] == b[0] && b[0] == c[0] {
      LexTransitive(a[1..], b[1..], c[1..]);
    }
  }

  lemma {:induction false} LexTotal(a: seq<int>, b: seq<int>)
    ensures a == b || LexLess(a, b) || LexLess(b, a)
    decreases |a|
  {
    if |a| > 0 && |b| > 0 && a[0] == b[0] {
      LexTotal(a[1..], b[1..]);
      if a[1..] == b[1..] {
        assert a == [a[0]] + a[1..] && b == [b[0]] + b[1..];
      }
    }
  }

  lemma LexAsymmetric(a: seq<int>, b: seq<int>)
    requires LexLess(a, b)
    ensures !LexLess(b, a)
  {
    if LexLess(b, a) {
      LexTransitive(a, b, a);
      LexIrreflexive(a);
    }
  }

  /** A listing row: the sort key of a record and its primary key. */
  datatype Row = Row(key: seq<int>, id: nat)

  predicate RowBefore(x: Row, y: Row)
  {
    LexLess(x.key, y.key) || (x.key == y.key && x.id < y.id)
  }

  /** `RowBefore` is a strict total order on rows. */
  lemma RowOrder(x: Row, y: Row, z: Row)
    ensures !RowBefore(x, x)
    ensures RowBefore(x, y) ==> !RowBefore(y, x)
    ensures RowBefore(x, y) && RowBefore(y, z) ==> RowBefore(x, z)
    ensures x == y || RowBefore(x, y) || RowBefore(y, x)
  {
    LexIrreflexive(x.key);
    LexTotal(x.key, y.key);
    if LexLess(x.key, y.key) {
      LexAsymmetric(x.key, y.key);
    }
    if LexLess(x.key, y.key) && LexLess(y.key, z.key) {
      LexTransitive(x.key, y.key, z.key);
    }
  }

  predicate StrictlySorted(rs: seq<Row>)
  {
    forall i, j :: 0 <= i < j < |rs| ==> RowBefore(rs[i], rs[j])
  }

  /** Inserts a new row into a strictly sorted sequence at its place. */
  function Insert(x: Row, rs: seq<Row>): (out: seq<Row>)
    requires StrictlySorted(rs) && x !in rs
    ensures StrictlySorted(out)
    ensures |out| == |rs| + 1
    ensures forall y :: y in out <==> y == x || y in rs
  {
    if rs == [] then [x]
    else
      RowOrder(x, rs[0], rs[0]);
      if RowBefore(x, rs[0]) then
        var out := [x] + rs;
        assert StrictlySorted(out) by {
          forall i, j | 0 <= i < j < |out|
            ensures RowBefore(out[i], out[j])
          {
            if i == 0 {
              RowOrder(x, rs[0], out[j]);
            }
          }
        }
        out
      else
        var tail := Insert(x, rs[1..]);
        assert StrictlySorted([rs[0]] + tail) by {
          forall j | 0 <= j < |tail|
            ensures RowBefore(rs[0], tail[j])
          {
            assert tail[j] in tail;
          }
        }
        [rs[0]] + tail
  }

  /** Sorts the keys of `keys` by (key, id): every id exactly once. */
  method SortByKey(keys: map<nat, seq<int>>) returns (ids: seq<nat>)
    ensures forall i :: 0 <= i < |ids| ==> ids[i] in keys
    ensures forall id :: id in keys ==> id in ids
    ensures forall i, j :: 0 <= i < j < |ids| ==> ids[i] != ids[j]
    ensures forall i, j :: 0 <= i < j < |ids| ==>
      RowBefore(Row(keys[ids[i]], ids[i]), Row(keys[ids[j]], ids[j]))
  {
    var remaining := keys.Keys;
    var rows: seq<Row> := [];
    while remaining != {}
      invariant remaining <= keys.Keys
      invariant StrictlySorted(rows)
      invariant forall r :: r in rows ==> r.id in keys && r.id !in remaining && r.key == keys[r.id]
      invariant forall id :: id in keys && id !in remaining ==> Row(keys[id], id) in rows
      decreases |remaining|
    {
      var id :| id in remaining;
      rows := Insert(Row(keys[id], id), rows);
      remaining := remaining - {id};
    }
    ids := seq(|rows|, k requires 0 <= k < |rows| => rows[k].id);
    forall i | 0 <= i < |ids|
      ensures ids[i] in keys && Row(keys[ids[i]], ids[i]) == rows[i]
    {
      assert rows[i] in rows;
    }
    forall id | id in keys
      ensures id in ids
    {
      var k :| 0 <= k < |rows| && rows[k] == Row(keys[id], id);
      assert ids[k] == id;
    }
    forall i, j | 0 <= i < j < |ids|
      ensures ids[i] != ids[j]
    {
      RowOrder(rows[i], rows[j], rows[j]);
    }
  }
}
