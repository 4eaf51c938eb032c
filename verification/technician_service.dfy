/** `TechnicianServiceManager`: validation in front of the technician
    repository. */
module TechnicianService {
  import opened Wrappers
  import opened Errors
  import opened Text
  import opened Config
  import opened Tables
  import opened Entities
  import opened Schema
  import Repo = TechnicianRepository

  const FieldsRequired: string := "Name, phone, and skill level are required"

  /** The `active` a caller gets by leaving the argument out. */
  const DefaultActive: bool := true

  /** `create_technician`: an empty name, phone or skill level is refused
      before the store is touched; otherwise one row is added holding the
      stripped text fields and `active` as given. Only the Technicians table
      changes. */
  function CreateTechnician(db: Store, name: string, phone: string, skillLevel: string,
                            active: bool, now: nat): (r: Reply<int>)
    ensures r.outcome.Err? <==> (name == [] || phone == [] || skillLevel == [])
    ensures r.outcome.Err? ==> r.db == db && r.outcome.error.ValidationError?
    ensures r.outcome.Ok? ==>
              var id, before, after := r.outcome.value, db.technicians.rows, r.db.technicians.rows;
              && id >= 1 && id !in before
              && id == db.technicians.nextId && r.db.technicians.nextId == id + 1
              && after.Keys == before.Keys + {id}
              && (forall k :: k in before ==> after[k] == before[k])
              && after[id] == TechnicianRow(Strip(name), Strip(phone), Strip(skillLevel), active, now)
    ensures r.db.customers == db.customers && r.db.orders == db.orders
  {
    if name == [] || phone == [] || skillLevel == [] then Reply(db, Err(ValidationError(FieldsRequired)))
    else
      var t := Technician(None, Strip(name), Strip(phone), Strip(skillLevel), active, None);
      var (technicians, id) := Repo.Create(db.technicians, t, now);
      Reply(db.(technicians := technicians), Ok(id))
  }

  /** `list_technicians`: the repository's page, unchanged. */
  function ListTechnicians(db: Store, activeOnly: bool, limit: int): (r: Result<seq<Technician>, Error>)
    ensures r.Err? <==> limit < 0
    ensures r.Ok? ==> forall i :: 0 <= i < |r.value| ==> r.value[i].technicianId.Some? && r.value[i].createdAt.Some?
    ensures r.Ok? ==> IsTop(db.technicians.rows, Repo.Filter(activeOnly), limit, Repo.Keys(r.value))
    ensures r.Ok? && activeOnly ==> forall i :: 0 <= i < |r.value| ==> r.value[i].active
  {
    Repo.List(db.technicians, activeOnly, limit)
  }

  /** `set_technician_active`: only the Active flag of that technician
      changes; every other row and table stays. */
  function SetTechnicianActive(db: Store, technicianId: int, active: bool): (r: Store)
    ensures r.technicians.rows.Keys == db.technicians.rows.Keys && r.technicians.nextId == db.technicians.nextId
    ensures technicianId in db.technicians.rows ==>
              r.technicians.rows[technicianId] == db.technicians.rows[technicianId].(active := active)
    ensures forall k :: k in db.technicians.rows && k != technicianId ==> r.technicians.rows[k] == db.technicians.rows[k]
    ensures r.customers == db.customers && r.orders == db.orders
  {
    db.(technicians := Repo.SetActive(db.technicians, technicianId, active))
  }

  /** Calling `set_technician_active` twice with the same flag leaves the
      same store as calling it once. */
  lemma SetTechnicianActiveIdempotent(db: Store, technicianId: int, active: bool)
    ensures var once := SetTechnicianActive(db, technicianId, active);
            SetTechnicianActive(once, technicianId, active) == once
  {
    Repo.SetActiveIdempotent(db.technicians, technicianId, active);
  }

  /** The default `list_technicians()` page holds at most 100 technicians,
      all active. */
  lemma DefaultListing(db: Store)
    ensures var r := ListTechnicians(db, true, DefaultPageSize);
            r.Ok? && |r.value| <= 100 && forall i :: 0 <= i < |r.value| ==> r.value[i].active
  {
  }

  /** Leaving `active` out creates an active technician. */
  lemma DefaultCreatesActive(db: Store, name: string, phone: string, skillLevel: string, now: nat)
    requires name != [] && phone != [] && skillLevel != []
    ensures var r := CreateTechnician(db, name, phone, skillLevel, DefaultActive, now);
            r.outcome.Ok? && r.db.technicians.rows[r.outcome.value].active
  {
  }

  /** A whitespace-only skill level passes the check, because the check
      precedes the strip, and is stored as "". */
  lemma BlankSkillLevelIsStoredEmpty(db: Store, name: string, phone: string, skillLevel: string,
                                     active: bool, now: nat)
    requires name != [] && phone != [] && skillLevel != [] && AllSpace(skillLevel)
    ensures var r := CreateTechnician(db, name, phone, skillLevel, active, now);
            r.outcome.Ok? && r.db.technicians.rows[r.outcome.value].skillLevel == []
  {
  }
}
