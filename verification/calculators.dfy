/**
 * The decision rules of the business-hours-calculator REST resource over an
 * abstract record store: what create, update, read and delete answer, and
 * what the store holds afterwards. The store is the sequence of saved
 * records in the order the store lists them.
 */
module Calculators {
  import opened Formatter

  datatype Option<T> = None | Some(value: T)

  /** A business-hours-calculator record. `id` is None until the store
      assigns one. */
  datatype Calculator = Calculator(
    id: Option<int>,
    startingDateTime: string,
    timeInterval: int,
    expectedPickupTime: string,
    actualBusinessHours: string)

  /** The collaborators the resource relies on, whose code is not part of
      this model: the deadline computation, the business-hours encoding, and
      the check that a starting date-time parses as `yyyy-MM-dd H:mm`. */
  datatype Engine = Engine(
    calculateDeadline: (int, string) -> string,
    businessHoursData: string,
    startParses: string -> bool)

  /** What create and update answer. */
  datatype Response =
    | Created(body: Calculator)
    | Ok(body: Calculator)
    | BadRequest(errorKey: string, message: string)
    | ParameterError(message: string)

  const IdExistsKey: string := "idexists"
  const IdExistsMessage: string := "A new businessHoursCalculator cannot already have an ID"
  const WrongFormatPrefix: string := "Wrong format of the starting datetime: "

  /** Every stored record has an id, and no two share one. */
  predicate WellFormed(records: seq<Calculator>) {
    (forall i :: 0 <= i < |records| ==> records[i].id.Some?) &&
    (forall i, j :: 0 <= i < j < |records| ==> records[i].id != records[j].id)
  }

  /** The record stored under `id`, if any. */
  function Lookup(records: seq<Calculator>, id: int): (found: Option<Calculator>)
    ensures found.Some? <==> exists i :: 0 <= i < |records| && records[i].id == Some(id)
    ensures found.Some? ==> found.value in records && found.value.id == Some(id)
  {
    if records == [] then None
    else if records[0].id == Some(id) then Some(records[0])
    else
      var found := Lookup(records[1..], id);
      assert forall i :: 1 <= i < |records| ==> records[i] == records[1..][i - 1];
      found
  }

  /** An id larger than every stored id: the store's choice for a new record. */
  function FreshId(records: seq<Calculator>): (k: int)
    ensures forall i :: 0 <= i < |records| && records[i].id.Some? ==> records[i].id.value < k
  {
    if records == [] then 1
    else
      var last := records[|records| - 1];
      var k := FreshId(records[..|records| - 1]);
      assert forall i :: 0 <= i < |records| - 1 ==> records[i] == records[..|records| - 1][i];
      if last.id.Some? && last.id.value >= k then last.id.value + 1 else k
  }

  /** Saving a record that already has an id: it replaces the stored record
      with that id, or is added at the end when there is none. */
  function Upsert(records: seq<Calculator>, c: Calculator): (r: seq<Calculator>)
    requires c.id.Some?
    ensures Lookup(r, c.id.value) == Some(c)
    ensures forall j :: j != c.id.value ==> Lookup(r, j) == Lookup(records, j)
    ensures forall x :: x in r ==> x == c || x in records
  {
    if records == [] then [c]
    else if records[0].id == c.id then [c] + records[1..]
    else
      var rest := Upsert(records[1..], c);
      assert ([records[0]] + rest)[1..] == rest;
      [records[0]] + rest
  }

  /** The store after deleting `id`: no record with that id is left. */
  function Without(records: seq<Calculator>, id: int): (r: seq<Calculator>)
    ensures Lookup(r, id) == None
    ensures forall j :: j != id ==> Lookup(r, j) == Lookup(records, j)
    ensures forall x :: x in r ==> x in records && x.id != Some(id)
  {
    if records == [] then []
    else
      var rest := Without(records[1..], id);
      if records[0].id == Some(id) then rest
      else
        assert ([records[0]] + rest)[1..] == rest;
        [records[0]] + rest
  }

  /** The store's save: a record without id gets a fresh one and is added
      at the end; a record with an id is upserted as given. Returns the
      saved record and the new store. */
  function Save(records: seq<Calculator>, c: Calculator): (Calculator, seq<Calculator>) {
    if c.id.None? then
      var saved := c.(id := Some(FreshId(records)));
      (saved, records + [saved])
    else
      (c, Upsert(records, c))
  }

  /** Saving keeps the store well formed. */
  lemma SaveKeepsWellFormed(records: seq<Calculator>, c: Calculator)
    requires WellFormed(records)
    ensures WellFormed(Save(records, c).1)
  {
    if c.id.Some? {
      UpsertKeepsWellFormed(records, c);
    }
  }

  /** In a well-formed store the record found under an id is the one stored
      under it. */
  lemma {:induction false} LookupFindsStored(records: seq<Calculator>, id: int, i: int)
    requires WellFormed(records)
    requires 0 <= i < |records| && records[i].id == Some(id)
    ensures Lookup(records, id) == Some(records[i])
  {
    var found := Lookup(records, id);
    var j :| 0 <= j < |records| && records[j] == found.value;
    assert j == i;
  }

  /** Create: a record with an id is rejected; then a starting date-time that
      does not parse is rejected with a message naming it; otherwise the two
      computed fields are filled and the record is saved. */
  function CreateOutcome(e: Engine, records: seq<Calculator>, c: Calculator): (Response, seq<Calculator>) {
    if c.id.Some? then
      (BadRequest(IdExistsKey, IdExistsMessage), records)
    else if !e.startParses(c.startingDateTime) then
      (ParameterError(WrongFormatPrefix + c.startingDateTime), records)
    else
      var computed := c.(expectedPickupTime := e.calculateDeadline(c.timeInterval, c.startingDateTime),
                         actualBusinessHours := e.businessHoursData);
      var (saved, after) := Save(records, computed);
      (Created(saved), after)
  }

  /** Update: without an id it is a create; with one, the record is saved as
      given. */
  function UpdateOutcome(e: Engine, records: seq<Calculator>, c: Calculator): (Response, seq<Calculator>) {
    if c.id.None? then CreateOutcome(e, records, c)
    else
      var (saved, after) := Save(records, c);
      (Ok(saved), after)
  }

  /** How a listed record is shown: its business hours formatted for display. */
  function Displayed(c: Calculator): Calculator {
    c.(actualBusinessHours := FormattedHours(c.actualBusinessHours))
  }

  // ---------------------------------------------------------------------
  // Create

  /** A create carrying an id is rejected whatever the collaborators would
      say: neither the format check nor the engine nor the store is
      reached, and the store is unchanged. */
  lemma CreateRejectsId(e1: Engine, e2: Engine, records: seq<Calculator>, c: Calculator)
    requires c.id.Some?
    ensures CreateOutcome(e1, records, c) == CreateOutcome(e2, records, c)
    ensures CreateOutcome(e1, records, c) == (BadRequest(IdExistsKey, IdExistsMessage), records)
  {
  }

  /** A create whose starting date-time does not parse fails with the
      message naming that value, whatever the engine computes, and nothing
      is saved. */
  lemma CreateRejectsBadStart(e1: Engine, e2: Engine, records: seq<Calculator>, c: Calculator)
    requires c.id.None?
    requires !e1.startParses(c.startingDateTime) && !e2.startParses(c.startingDateTime)
    ensures CreateOutcome(e1, records, c) == CreateOutcome(e2, records, c)
    ensures CreateOutcome(e1, records, c) == (ParameterError(WrongFormatPrefix + c.startingDateTime), records)
  {
  }

  /** A successful create stores exactly one new record, at the end, under an
      id no stored record had, with the deadline and the business hours the
      engine gives and every client field kept; the store stays well formed. */
  lemma CreateSaves(e: Engine, records: seq<Calculator>, c: Calculator)
    requires WellFormed(records)
    requires c.id.None? && e.startParses(c.startingDateTime)
    ensures var (resp, after) := CreateOutcome(e, records, c);
      && resp.Created?
      && resp.body.id.Some?
      && Lookup(records, resp.body.id.value) == None
      && resp.body.startingDateTime == c.startingDateTime
      && resp.body.timeInterval == c.timeInterval
      && resp.body.expectedPickupTime == e.calculateDeadline(c.timeInterval, c.startingDateTime)
      && resp.body.actualBusinessHours == e.businessHoursData
      && after == records + [resp.body]
      && WellFormed(after)
  {
    var (resp, after) := CreateOutcome(e, records, c);
    var k := resp.body.id.value;
    assert k == FreshId(records);
  }

  /** Whatever create answers, the store stays well formed. */
  lemma CreateKeepsWellFormed(e: Engine, records: seq<Calculator>, c: Calculator)
    requires WellFormed(records)
    ensures WellFormed(CreateOutcome(e, records, c).1)
  {
    if c.id.None? && e.startParses(c.startingDateTime) {
      CreateSaves(e, records, c);
    }
  }

  // ---------------------------------------------------------------------
  // Update

  /** An update without an id is answered exactly as a create. */
  lemma UpdateWithoutIdIsCreate(e: Engine, records: seq<Calculator>, c: Calculator)
    requires c.id.None?
    ensures UpdateOutcome(e, records, c) == CreateOutcome(e, records, c)
  {
  }

  /** An update with an id stores the record exactly as given, with no
      format check and no recomputation (the collaborators play no part),
      and leaves every other id's record as it was. */
  lemma UpdateWithIdStoresAsGiven(e1: Engine, e2: Engine, records: seq<Calculator>, c: Calculator)
    requires c.id.Some?
    ensures UpdateOutcome(e1, records, c) == UpdateOutcome(e2, records, c)
    ensures var (resp, after) := UpdateOutcome(e1, records, c);
      && resp == Ok(c)
      && Lookup(after, c.id.value) == Some(c)
      && forall j :: j != c.id.value ==> Lookup(after, j) == Lookup(records, j)
  {
  }

  lemma {:induction false} UpsertKeepsWellFormed(records: seq<Calculator>, c: Calculator)
    requires c.id.Some? && WellFormed(records)
    ensures WellFormed(Upsert(records, c))
  {
    if records == [] {
    } else if records[0].id == c.id {
      ReplaceHeadKeepsWellFormed(records, c);
    } else {
      UpsertKeepsWellFormed(records[1..], c);
      KeepHeadKeepsWellFormed(records, Upsert(records[1..], c), c);
    }
  }

  lemma {:induction false} ReplaceHeadKeepsWellFormed(records: seq<Calculator>, c: Calculator)
    requires records != [] && records[0].id == c.id && WellFormed(records)
    ensures WellFormed([c] + records[1..])
  {
    var r := [c] + records[1..];
    forall i, j | 0 <= i < j < |r| ensures r[i].id != r[j].id {
      if i == 0 {
        assert r[j] == records[j];
      } else {
        assert r[i] == records[i] && r[j] == records[j];
      }
    }
  }

  lemma {:induction false} KeepHeadKeepsWellFormed(records: seq<Calculator>, rest: seq<Calculator>, c: Calculator)
    requires records != [] && records[0].id != c.id && WellFormed(records)
    requires WellFormed(rest)
    requires forall x :: x in rest ==> x == c || x in records[1..]
    ensures WellFormed([records[0]] + rest)
  {
    var r := [records[0]] + rest;
    forall i, j | 0 <= i < j < |r| ensures r[i].id != r[j].id {
      if i == 0 {
        assert r[j] in rest;
        if r[j] != c {
          var m :| 0 <= m < |records[1..]| && records[1..][m] == r[j];
          assert records[1 + m] == r[j];
        }
      } else {
        assert r[i] == rest[i - 1] && r[j] == rest[j - 1];
      }
    }
  }

  /** Whatever update answers, the store stays well formed. */
  lemma UpdateKeepsWellFormed(e: Engine, records: seq<Calculator>, c: Calculator)
    requires WellFormed(records)
    ensures WellFormed(UpdateOutcome(e, records, c).1)
  {
    if c.id.None? {
      CreateKeepsWellFormed(e, records, c);
    } else {
      UpsertKeepsWellFormed(records, c);
    }
  }

  // ---------------------------------------------------------------------
  // Delete

  /** Deleting keeps the store well formed. */
  lemma {:induction false} WithoutKeepsWellFormed(records: seq<Calculator>, id: int)
    requires WellFormed(records)
    ensures WellFormed(Without(records, id))
  {
    if records != [] {
      var rest := Without(records[1..], id);
      WithoutKeepsWellFormed(records[1..], id);
      if records[0].id != Some(id) {
        var r := [records[0]] + rest;
        forall i, j | 0 <= i < j < |r| ensures r[i].id != r[j].id {
          if i == 0 {
            assert r[j] in rest;
            var m :| 0 <= m < |records[1..]| && records[1..][m] == r[j];
            assert records[1 + m] == r[j];
          }
        }
      }
    }
  }
}
