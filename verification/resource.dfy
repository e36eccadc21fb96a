/**
 * The REST controller for business-hours-calculator records, as an object
 * holding the record store and the collaborators it was built with.
 */
module CalculatorResource {
  import opened Formatter
  import opened Calculators

  class BusinessHoursCalculatorResource {
    /** The injected collaborators. */
    const engine: Engine
    /** The record store, in the order its `findAll` lists the records. */
    var records: seq<Calculator>

    ghost predicate Valid()
      reads this
    {
      WellFormed(records)
    }

    constructor (engine: Engine)
      ensures Valid() && this.engine == engine && records == []
    {
      this.engine := engine;
      records := [];
    }

    /** The store's save. */
    method Save(c: Calculator) returns (saved: Calculator)
      requires Valid()
      modifies this
      ensures Valid()
      ensures (saved, records) == Calculators.Save(old(records), c)
    {
      SaveKeepsWellFormed(records, c);
      if c.id.None? {
        saved := c.(id := Some(FreshId(records)));
        records := records + [saved];
      } else {
        saved := c;
        records := Upsert(records, c);
      }
    }

    /** POST: create a record. */
    method Create(c: Calculator) returns (resp: Response)
      requires Valid()
      modifies this
      ensures Valid()
      ensures (resp, records) == CreateOutcome(engine, old(records), c)
    {
      CreateKeepsWellFormed(engine, records, c);
      if c.id.Some? {
        return BadRequest(IdExistsKey, IdExistsMessage);
      }
      if !engine.startParses(c.startingDateTime) {
        return ParameterError(WrongFormatPrefix + c.startingDateTime);
      }
      var entity := c.(expectedPickupTime := engine.calculateDeadline(c.timeInterval, c.startingDateTime));
      entity := entity.(actualBusinessHours := engine.businessHoursData);
      var result := Save(entity);
      resp := Created(result);
    }

    /** PUT: update a record, or create it when it has no id. */
    method Update(c: Calculator) returns (resp: Response)
      requires Valid()
      modifies this
      ensures Valid()
      ensures (resp, records) == UpdateOutcome(engine, old(records), c)
    {
      if c.id.None? {
        resp := Create(c);
        return;
      }
      UpdateKeepsWellFormed(engine, records, c);
      var result := Save(c);
      resp := Ok(result);
    }

    /** GET all: every stored record, in store order, each with its business
        hours formatted for display. */
    method GetAll() returns (list: seq<Calculator>)
      ensures |list| == |records|
      ensures forall i :: 0 <= i < |list| ==> list[i] == Displayed(records[i])
    {
      var found := records;
      list := [];
      for i := 0 to |found|
        invariant |list| == i
        invariant forall k :: 0 <= k < i ==> list[k] == Displayed(found[k])
      {
        var c := found[i];
        var formatted := FormatActualBusinessHours(c.actualBusinessHours);
        c := c.(actualBusinessHours := formatted);
        list := list + [c];
      }
    }

    /** GET one: the record with that id, or nothing (not found). */
    method Get(id: int) returns (found: Option<Calculator>)
      requires Valid()
      ensures found.Some? <==> exists i :: 0 <= i < |records| && records[i].id == Some(id)
      ensures forall i :: 0 <= i < |records| && records[i].id == Some(id) ==> found == Some(records[i])
    {
      found := Lookup(records, id);
      forall i | 0 <= i < |records| && records[i].id == Some(id)
        ensures found == Some(records[i])
      {
        LookupFindsStored(records, id, i);
      }
    }

    /** DELETE: afterwards no record has that id; all others are kept. */
    method Delete(id: int)
      requires Valid()
      modifies this
      ensures Valid()
      ensures records == Without(old(records), id)
    {
      WithoutKeepsWellFormed(records, id);
      records := Without(records, id);
    }
  }
}
