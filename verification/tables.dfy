/** One SQL table with an identity primary key, abstracted as a map from
    id to row plus the next identity value. */
module Tables {

  datatype TableData<R> = TableData(rows: map<int, R>, nextId: int)

  /** Identity values start at 1 and every stored id was handed out
      before, so it lies below the next one. */
  predicate Consistent<R>(t: TableData<R>) {
    1 <= t.nextId && forall k :: k in t.rows ==> 1 <= k < t.nextId
  }

  type Table<R> = t: TableData<R> | Consistent(t) witness TableData(map[], 1)

  /** A freshly created table. */
  function Empty<R>(): (t: Table<R>) {
    TableData(map[], 1)
  }

  /** `INSERT` followed by `SCOPE_IDENTITY()`: the row gets a fresh id,
      larger than every id in the table, and nothing else changes. */
  function Insert<R>(t: Table<R>, row: R): (r: (Table<R>, int))
    ensures r.1 >= 1 && r.1 !in t.rows
    ensures forall k :: k in t.rows ==> k < r.1
    ensures r.1 == t.nextId && r.0.nextId == t.nextId + 1
    ensures r.0.rows.Keys == t.rows.Keys + {r.1}
    ensures r.0.rows[r.1] == row
    ensures forall k :: k in t.rows ==> r.0.rows[k] == t.rows[k]
  {
    (TableData(t.rows[t.nextId := row], t.nextId + 1), t.nextId)
  }

  /** `UPDATE ... WHERE id = k`: the row with id `k`, if any, becomes
      `f` of itself; an absent id changes nothing. */
  function Modify<R>(t: Table<R>, k: int, f: R -> R): (r: Table<R>)
    ensures r.rows.Keys == t.rows.Keys && r.nextId == t.nextId
    ensures k in t.rows ==> r.rows[k] == f(t.rows[k])
    ensures forall j :: j in t.rows && j != k ==> r.rows[j] == t.rows[j]
    ensures k !in t.rows ==> r == t
  {
    if k in t.rows then TableData(t.rows[k := f(t.rows[k])], t.nextId) else t
  }

  /** The domain records a page of (id, row) pairs is read back as. */
  function Project<R, E>(sel: seq<(int, R)>, read: (int, R) -> E): (es: seq<E>)
    ensures |es| == |sel|
    ensures forall i :: 0 <= i < |sel| ==> es[i] == read(sel[i].0, sel[i].1)
  {
    seq(|sel|, i requires 0 <= i < |sel| => read(sel[i].0, sel[i].1))
  }

  /** `DELETE ... WHERE id = k`. Identity values are not reused. */
  function Remove<R>(t: Table<R>, k: int): (r: Table<R>)
    ensures r.rows.Keys == t.rows.Keys - {k} && r.nextId == t.nextId
    ensures forall j :: j in r.rows ==> r.rows[j] == t.rows[j]
  {
    TableData(map j | j in t.rows && j != k :: t.rows[j], t.nextId)
  }

  /** Reference meaning of `SELECT TOP (limit) ... WHERE keep ORDER BY id DESC`:
      at most `limit` stored rows, all kept by the filter, strictly descending
      by id, and no kept row is skipped unless the page is full of larger ids. */
  ghost predicate IsTop<R>(rows: map<int, R>, keep: R -> bool, limit: nat, r: seq<(int, R)>) {
    && |r| <= limit
    && (forall i :: 0 <= i < |r| ==> r[i].0 in rows && rows[r[i].0] == r[i].1 && keep(r[i].1))
    && (forall i, j :: 0 <= i < j < |r| ==> r[i].0 > r[j].0)
    && (forall k :: k in rows && keep(rows[k]) ==>
          (k, rows[k]) in r || (|r| == limit && forall i :: 0 <= i < |r| ==> r[i].0 > k))
  }

  /** The kept rows with id in [1, hi], scanned from `hi` down. */
  function Matching<R>(rows: map<int, R>, keep: R -> bool, hi: int): (r: seq<(int, R)>)
    ensures forall i :: 0 <= i < |r| ==>
              1 <= r[i].0 <= hi && r[i].0 in rows && rows[r[i].0] == r[i].1 && keep(r[i].1)
    ensures forall i, j :: 0 <= i < j < |r| ==> r[i].0 > r[j].0
    ensures forall k :: 1 <= k <= hi && k in rows && keep(rows[k]) ==> (k, rows[k]) in r
    decreases hi
  {
    if hi < 1 then []
    else
      var rest := Matching(rows, keep, hi - 1);
      if hi in rows && keep(rows[hi]) then [(hi, rows[hi])] + rest else rest
  }

  /** `r` lists every kept row, strictly descending by id. */
  ghost predicate IsAllKept<R>(rows: map<int, R>, keep: R -> bool, r: seq<(int, R)>) {
    && (forall i :: 0 <= i < |r| ==> r[i].0 in rows && rows[r[i].0] == r[i].1 && keep(r[i].1))
    && (forall i, j :: 0 <= i < j < |r| ==> r[i].0 > r[j].0)
    && (forall k :: k in rows && keep(rows[k]) ==> (k, rows[k]) in r)
  }

  /** Cutting the full descending list at `limit` gives the page. */
  lemma CutIsTop<R>(rows: map<int, R>, keep: R -> bool, all: seq<(int, R)>, limit: nat)
    requires IsAllKept(rows, keep, all) && limit < |all|
    ensures IsTop(rows, keep, limit, all[..limit])
  {
    var page := all[..limit];
    forall k | k in rows && keep(rows[k]) && (k, rows[k]) !in page
      ensures forall i :: 0 <= i < |page| ==> page[i].0 > k
    {
      var p :| 0 <= p < |all| && all[p] == (k, rows[k]);
      assert p >= limit;
    }
  }

  /** The store's answer to the query: the kept rows newest first, cut
      at `limit`. */
  function Select<R>(t: Table<R>, keep: R -> bool, limit: nat): (r: seq<(int, R)>)
    ensures IsTop(t.rows, keep, limit, r)
  {
    var all := Matching(t.rows, keep, t.nextId - 1);
    assert IsAllKept(t.rows, keep, all);
    if |all| <= limit then all
    else
      CutIsTop(t.rows, keep, all, limit);
      all[..limit]
  }

  /** The rows of `rows` with id below `m`. */
  function Below<R>(rows: map<int, R>, m: int): (below: map<int, R>) {
    map k | k in rows && k < m :: rows[k]
  }

  /** Peeling the newest row off a page leaves a page, one shorter, of the
      rows older than it. */
  lemma TopTail<R>(rows: map<int, R>, keep: R -> bool, limit: nat, a: seq<(int, R)>)
    requires IsTop(rows, keep, limit, a) && |a| > 0
    ensures limit >= 1
    ensures IsTop(Below(rows, a[0].0), keep, limit - 1, a[1..])
  {
    var rows' := Below(rows, a[0].0);
    var t := a[1..];
    forall i | 0 <= i < |t|
      ensures t[i].0 in rows' && rows'[t[i].0] == t[i].1 && keep(t[i].1)
    {
      assert t[i] == a[i + 1];
    }
    forall k | k in rows' && keep(rows'[k])
      ensures (k, rows'[k]) in t || (|t| == limit - 1 && forall i :: 0 <= i < |t| ==> t[i].0 > k)
    {
      if (k, rows[k]) in a {
        var p :| 0 <= p < |a| && a[p] == (k, rows[k]);
        assert p != 0;
        assert t[p - 1] == (k, rows'[k]);
      }
    }
  }

  /** Pages for the same query are empty together. */
  lemma TopNonEmpty<R>(rows: map<int, R>, keep: R -> bool, limit: nat, a: seq<(int, R)>, b: seq<(int, R)>)
    requires IsTop(rows, keep, limit, a) && IsTop(rows, keep, limit, b)
    requires |a| > 0
    ensures |b| > 0
  {
    var k := a[0].0;
    assert k in rows && keep(rows[k]);
    assert (k, rows[k]) in b || |b| == limit;
  }

  /** The first row of a non-empty page holds the largest kept id. */
  lemma TopHead<R>(rows: map<int, R>, keep: R -> bool, limit: nat, a: seq<(int, R)>, k: int)
    requires IsTop(rows, keep, limit, a) && |a| > 0
    requires k in rows && keep(rows[k])
    ensures k <= a[0].0
  {
    if (k, rows[k]) in a {
      var p :| 0 <= p < |a| && a[p] == (k, rows[k]);
      assert p == 0 || a[0].0 > a[p].0;
    }
  }

  /** `IsTop` pins the answer down completely: two pages that both meet it
      are the same page. */
  lemma {:induction false} TopUnique<R>(rows: map<int, R>, keep: R -> bool, limit: nat, a: seq<(int, R)>, b: seq<(int, R)>)
    requires IsTop(rows, keep, limit, a) && IsTop(rows, keep, limit, b)
    ensures a == b
    decreases limit
  {
    if |a| == 0 && |b| == 0 {
      return;
    }
    if |a| > 0 {
      TopNonEmpty(rows, keep, limit, a, b);
    } else {
      TopNonEmpty(rows, keep, limit, b, a);
    }
    TopHead(rows, keep, limit, a, b[0].0);
    TopHead(rows, keep, limit, b, a[0].0);
    assert a[0] == b[0];
    TopTail(rows, keep, limit, a);
    TopTail(rows, keep, limit, b);
    TopUnique(Below(rows, a[0].0), keep, limit - 1, a[1..], b[1..]);
    assert a == [a[0]] + a[1..];
    assert b == [b[0]] + b[1..];
  }

  /** Any page meeting the reference meaning is exactly what `Select` returns. */
  lemma SelectIsTheTop<R>(t: Table<R>, keep: R -> bool, limit: nat, page: seq<(int, R)>)
    requires IsTop(t.rows, keep, limit, page)
    ensures Select(t, keep, limit) == page
  {
    TopUnique(t.rows, keep, limit, Select(t, keep, limit), page);
  }

  /** A row just inserted that passes the filter heads every page with room
      for one row. */
  lemma InsertHeadsSelect<R>(t: Table<R>, row: R, keep: R -> bool, limit: nat)
    requires keep(row) && limit >= 1
    ensures var (t', id) := Insert(t, row);
            var page := Select(t', keep, limit);
            |page| >= 1 && page[0] == (id, row)
  {
    var (t', id) := Insert(t, row);
    var page := Select(t', keep, limit);
    assert (id, t'.rows[id]) in page || |page| == limit;
    TopHead(t'.rows, keep, limit, page, id);
    assert page[0].0 in t'.rows;
  }

  /** A key no longer in the table is on no page. */
  lemma RemovedNotSelected<R>(t: Table<R>, k: int, keep: R -> bool, limit: nat)
    ensures var page := Select(Remove(t, k), keep, limit);
            forall i :: 0 <= i < |page| ==> page[i].0 != k
  {
  }

  /** The insert that follows a delete does not hand out the deleted id:
      `Remove` keeps `nextId`, and every stored id lies below it. */
  lemma RemovedIdNotReissued<R>(t: Table<R>, k: int, row: R)
    requires k in t.rows
    ensures Insert(Remove(t, k), row).1 != k
  {
  }
}
