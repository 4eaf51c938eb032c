/** `TechnicianRepository`: the statements against the Technicians table. */
module TechnicianRepository {
  import opened Wrappers
  import opened Errors
  import opened Tables
  import opened Entities
  import opened Schema

  /** The row a technician becomes; `CreatedAt` is the store's default `now`. */
  function ToRow(t: Technician, now: nat): (row: TechnicianRow) {
    TechnicianRow(t.name, t.phone, t.skillLevel, t.active, now)
  }

  function FromRow(id: int, row: TechnicianRow): (rec: Technician) {
    Technician(Some(id), row.name, row.phone, row.skillLevel, row.active, Some(row.createdAt))
  }

  function Key(t: Technician): (k: (int, TechnicianRow)) {
    (t.technicianId.GetOr(0), ToRow(t, t.createdAt.GetOr(0)))
  }

  /** Reading a row back and keying it again recovers it. */
  lemma KeyFromRow(id: int, row: TechnicianRow)
    ensures Key(FromRow(id, row)) == (id, row)
  {
  }

  function Keys(ts: seq<Technician>): (ks: seq<(int, TechnicianRow)>) {
    seq(|ts|, i requires 0 <= i < |ts| => Key(ts[i]))
  }

  /** `WHERE Active = 1` when only active technicians are wanted. */
  function Filter(activeOnly: bool): (keep: TechnicianRow -> bool) {
    if activeOnly then (row: TechnicianRow) => row.active else (row: TechnicianRow) => true
  }

  /** `create`: one new row holding the given fields under a fresh id. */
  function Create(t: Table<TechnicianRow>, tech: Technician, now: nat): (r: (Table<TechnicianRow>, int))
    ensures r.1 >= 1 && r.1 !in t.rows
    ensures forall k :: k in t.rows ==> k < r.1
    ensures r.1 == t.nextId && r.0.nextId == t.nextId + 1
    ensures r.0.rows.Keys == t.rows.Keys + {r.1}
    ensures r.0.rows[r.1] == TechnicianRow(tech.name, tech.phone, tech.skillLevel, tech.active, now)
    ensures forall k :: k in t.rows ==> r.0.rows[k] == t.rows[k]
  {
    Insert(t, ToRow(tech, now))
  }

  /** `list`: newest first, at most `limit`, only active ones when asked. */
  function List(t: Table<TechnicianRow>, activeOnly: bool, limit: int): (r: Result<seq<Technician>, Error>)
    ensures r.Err? <==> limit < 0
    ensures r.Ok? ==> forall i :: 0 <= i < |r.value| ==> r.value[i].technicianId.Some? && r.value[i].createdAt.Some?
    ensures r.Ok? ==> IsTop(t.rows, Filter(activeOnly), limit, Keys(r.value))
    ensures r.Ok? && activeOnly ==> forall i :: 0 <= i < |r.value| ==> r.value[i].active
  {
    if limit < 0 then Err(PersistenceError(NegativeTop))
    else
      var sel := Select(t, Filter(activeOnly), limit);
      var ts := Project(sel, FromRow);
      assert Keys(ts) == sel by {
        forall i | 0 <= i < |sel| ensures Keys(ts)[i] == sel[i] {
          KeyFromRow(sel[i].0, sel[i].1);
        }
      }
      assert forall i :: 0 <= i < |ts| ==> Filter(activeOnly)(sel[i].1);
      Ok(ts)
  }

  /** `set_active`: only the Active flag of the matching row changes; an
      absent id changes nothing. */
  function SetActive(t: Table<TechnicianRow>, id: int, active: bool): (r: Table<TechnicianRow>)
    ensures r.rows.Keys == t.rows.Keys && r.nextId == t.nextId
    ensures id in t.rows ==> r.rows[id] == t.rows[id].(active := active)
    ensures forall k :: k in t.rows && k != id ==> r.rows[k] == t.rows[k]
  {
    Modify(t, id, (row: TechnicianRow) => row.(active := active))
  }

  /** Setting the same flag twice is setting it once. */
  lemma SetActiveIdempotent(t: Table<TechnicianRow>, id: int, active: bool)
    ensures SetActive(SetActive(t, id, active), id, active) == SetActive(t, id, active)
  {
    var once := SetActive(t, id, active);
    var twice := SetActive(once, id, active);
    assert twice.rows == once.rows;
  }
}
