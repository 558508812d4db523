/** The investment ledger of `src/controllers/investmentController.ts`:
    listing the caller's investments by date, recording one (after checking
    the required fields and the type), and deleting one the caller owns.
    The `investments` table is a sequence of rows in insertion order. */
module Investments {
  import opened Outcomes
  import opened Ordering

  /** The `CHECK(type IN ('cd', 'tBill'))` column. */
  datatype InvestmentType = Cd | TBill

  /** One row of `investments`. `rate` and `actualCost` are nullable
      columns; the handlers always write `rate` and never `actual_cost`. */
  datatype Investment = Investment(
    id: string,
    userId: string,
    date: string,
    kind: InvestmentType,
    amount: real,
    rate: Option<real>,
    actualCost: Option<real>)

  /** The fields `createInvestment` reads from the request body. */
  datatype InvestmentRequest = InvestmentRequest(
    date: Option<string>,
    kind: Option<string>,
    amount: Option<real>,
    rate: Option<real>)

  /** The 201 body: the submitted values with the new id and the owner. */
  datatype Receipt = Receipt(
    id: string,
    userId: string,
    date: string,
    kind: InvestmentType,
    amount: real,
    rate: real)

  /** The wire and column spelling of a type. */
  function TypeName(t: InvestmentType): (r: string)
    ensures |r| > 0
  {
    match t
    case Cd => "cd"
    case TBill => "tBill"
  }

  /** `['cd', 'tBill'].includes(type)`, returning the type it names. */
  function ParseType(s: string): (r: Option<InvestmentType>)
    ensures r.Some? ==> TypeName(r.value) == s
    ensures r.None? ==> forall t :: TypeName(t) != s
  {
    if s == "cd" then Some(Cd) else if s == "tBill" then Some(TBill) else None
  }

  /** A JavaScript string field is truthy: present and not empty. */
  predicate Truthy(s: Option<string>)
  {
    s.Some? && s.value != ""
  }

  /** `!date || !type || amount === undefined || rate === undefined` fails:
      an amount or rate of zero is present. */
  predicate HasRequiredFields(req: InvestmentRequest)
  {
    Truthy(req.date) && Truthy(req.kind) && req.amount.Some? && req.rate.Some?
  }

  /** The row the INSERT writes: the submitted values, `actual_cost` NULL. */
  function NewInvestment(id: string, userId: string, req: InvestmentRequest, kind: InvestmentType): (row: Investment)
    requires HasRequiredFields(req)
    ensures row.actualCost == None && row.rate == Some(req.rate.value)
  {
    Investment(id, userId, req.date.value, kind, req.amount.value, Some(req.rate.value), None)
  }

  /** The row and the 201 body carry the same submitted values. */
  function ReceiptOf(row: Investment): (r: Receipt)
    requires row.rate.Some?
    ensures r.id == row.id && r.userId == row.userId && r.date == row.date
    ensures r.kind == row.kind && r.amount == row.amount && Some(r.rate) == row.rate
  {
    Receipt(row.id, row.userId, row.date, row.kind, row.amount, row.rate.value)
  }

  // ---------------------------------------------------------------------
  // Table invariant

  /** `id TEXT PRIMARY KEY`. */
  ghost predicate UniqueIds(rows: seq<Investment>)
  {
    forall i, j :: 0 <= i < j < |rows| ==> rows[i].id != rows[j].id
  }

  /** Keys are unique; every row has an owner and a date. */
  ghost predicate InvestmentsInvariant(rows: seq<Investment>)
  {
    UniqueIds(rows) && forall x :: x in rows ==> x.userId != "" && x.date != ""
  }

  // ---------------------------------------------------------------------
  // The statements the handlers run

  /** `WHERE user_id = ?`, in table order. */
  function OwnedBy(rows: seq<Investment>, userId: string): (r: seq<Investment>)
    ensures |r| <= |rows|
    ensures forall x :: x in r <==> x in rows && x.userId == userId
  {
    if rows == [] then []
    else (if rows[0].userId == userId then [rows[0]] else []) + OwnedBy(rows[1..], userId)
  }

  /** The sort key of `ORDER BY date DESC`. */
  function Date(x: Investment): string
  {
    x.date
  }

  /** Whether a row matches `WHERE id = ? AND user_id = ?`. */
  predicate Matches(x: Investment, id: string, userId: string)
  {
    x.id == id && x.userId == userId
  }

  /** The index of the first row matching both `id` and `user_id`. */
  function IndexOwned(rows: seq<Investment>, id: string, userId: string): (r: Option<nat>)
    ensures r.Some? ==> r.value < |rows| && Matches(rows[r.value], id, userId)
    ensures r.Some? ==> forall k :: 0 <= k < r.value ==> !Matches(rows[k], id, userId)
    ensures r.None? ==> forall x :: x in rows ==> !Matches(x, id, userId)
  {
    if rows == [] then None
    else if Matches(rows[0], id, userId) then Some(0)
    else match IndexOwned(rows[1..], id, userId)
      case None => None
      case Some(k) => Some(k + 1)
  }

  /** `DELETE FROM investments WHERE id = ? AND user_id = ?`: the rows
      that remain, in table order. */
  function DeleteOwned(rows: seq<Investment>, id: string, userId: string): (r: seq<Investment>)
    ensures |r| <= |rows|
    ensures forall x :: x in r <==> x in rows && !Matches(x, id, userId)
  {
    if rows == [] then []
    else (if Matches(rows[0], id, userId) then [] else [rows[0]]) + DeleteOwned(rows[1..], id, userId)
  }

  /** With unique ids the DELETE removes exactly the owned row, if there is
      one, and keeps every other row in place; otherwise it changes nothing. */
  lemma {:induction false} DeleteOwnedRemovesOne(rows: seq<Investment>, id: string, userId: string)
    requires UniqueIds(rows)
    ensures IndexOwned(rows, id, userId).None? ==> DeleteOwned(rows, id, userId) == rows
    ensures IndexOwned(rows, id, userId).Some? ==>
      var k := IndexOwned(rows, id, userId).value;
      DeleteOwned(rows, id, userId) == rows[..k] + rows[k + 1..]
  {
    if rows != [] {
      UniqueIdsTail(rows);
      DeleteOwnedRemovesOne(rows[1..], id, userId);
      if Matches(rows[0], id, userId) {
        HeadOwnedOnly(rows, id, userId);
        NothingOwned(rows[1..], id, userId);
      } else {
        DeleteKeepsHead(rows, id, userId);
      }
    }
  }

  /** A first row that does not match stays first, and the DELETE acts on
      the rest. */
  lemma DeleteKeepsHead(rows: seq<Investment>, id: string, userId: string)
    requires rows != [] && !Matches(rows[0], id, userId)
    requires IndexOwned(rows[1..], id, userId).None? ==> DeleteOwned(rows[1..], id, userId) == rows[1..]
    requires IndexOwned(rows[1..], id, userId).Some? ==>
      var k := IndexOwned(rows[1..], id, userId).value;
      DeleteOwned(rows[1..], id, userId) == rows[1..][..k] + rows[1..][k + 1..]
    ensures IndexOwned(rows, id, userId).None? ==> DeleteOwned(rows, id, userId) == rows
    ensures IndexOwned(rows, id, userId).Some? ==>
      var k := IndexOwned(rows, id, userId).value;
      DeleteOwned(rows, id, userId) == rows[..k] + rows[k + 1..]
  {
    IndexShifts(rows, id, userId);
    match IndexOwned(rows[1..], id, userId)
    case None =>
      KeptHeadNone(rows, id, userId);
    case Some(k) =>
      KeptHeadAt(rows, id, userId, k);
  }

  /** Past a first row that does not match, the owned row's index moves up by one. */
  lemma IndexShifts(rows: seq<Investment>, id: string, userId: string)
    requires rows != [] && !Matches(rows[0], id, userId)
    ensures IndexOwned(rows[1..], id, userId).None? ==> IndexOwned(rows, id, userId).None?
    ensures IndexOwned(rows[1..], id, userId).Some? ==>
      IndexOwned(rows, id, userId) == Some(IndexOwned(rows[1..], id, userId).value + 1)
  {
    var r := IndexOwned(rows, id, userId);
    var t := IndexOwned(rows[1..], id, userId);
    assert r == (match t case None => None case Some(k) => Some(k + 1));
  }

  /** A first row that does not match is kept in front of what the DELETE
      leaves of the rest. */
  lemma DeleteUnfolds(rows: seq<Investment>, id: string, userId: string)
    requires rows != [] && !Matches(rows[0], id, userId)
    ensures DeleteOwned(rows, id, userId) == [rows[0]] + DeleteOwned(rows[1..], id, userId)
  {
  }

  lemma KeptHeadNone(rows: seq<Investment>, id: string, userId: string)
    requires rows != [] && !Matches(rows[0], id, userId)
    requires DeleteOwned(rows[1..], id, userId) == rows[1..]
    ensures DeleteOwned(rows, id, userId) == rows
  {
    DeleteUnfolds(rows, id, userId);
    assert rows == [rows[0]] + rows[1..];
  }

  lemma KeptHeadAt(rows: seq<Investment>, id: string, userId: string, k: nat)
    requires rows != [] && !Matches(rows[0], id, userId) && k + 1 < |rows|
    requires DeleteOwned(rows[1..], id, userId) == rows[1..][..k] + rows[1..][k + 1..]
    ensures DeleteOwned(rows, id, userId) == rows[..k + 1] + rows[k + 2..]
  {
    DeleteUnfolds(rows, id, userId);
    SkipOne(rows, k);
  }

  /** Skipping element `k + 1` of `rows` is keeping the head and skipping
      element `k` of the tail. */
  lemma SkipOne<T>(rows: seq<T>, k: nat)
    requires k + 1 < |rows|
    ensures [rows[0]] + (rows[1..][..k] + rows[1..][k + 1..]) == rows[..k + 1] + rows[k + 2..]
  {
    var tail := rows[1..];
    assert rows[..k + 1] == [rows[0]] + tail[..k];
    assert rows[k + 2..] == tail[k + 1..];
  }

  lemma UniqueIdsTail(rows: seq<Investment>)
    requires rows != [] && UniqueIds(rows)
    ensures UniqueIds(rows[1..])
  {
    var tail := rows[1..];
    forall i, j | 0 <= i < j < |tail| ensures tail[i].id != tail[j].id {
      assert tail[i] == rows[i + 1] && tail[j] == rows[j + 1];
    }
  }

  /** When the first row matches, no later row can share its id. */
  lemma HeadOwnedOnly(rows: seq<Investment>, id: string, userId: string)
    requires rows != [] && UniqueIds(rows) && Matches(rows[0], id, userId)
    ensures forall x :: x in rows[1..] ==> !Matches(x, id, userId)
  {
    forall x | x in rows[1..] ensures !Matches(x, id, userId) {
      var j :| 0 <= j < |rows[1..]| && rows[1..][j] == x;
      assert rows[j + 1] == x;
    }
  }

  /** With no matching row the DELETE removes nothing. */
  lemma {:induction false} NothingOwned(rows: seq<Investment>, id: string, userId: string)
    requires forall x :: x in rows ==> !Matches(x, id, userId)
    ensures IndexOwned(rows, id, userId).None?
    ensures DeleteOwned(rows, id, userId) == rows
  {
    if rows != [] {
      assert rows[0] in rows;
      NothingOwned(rows[1..], id, userId);
      assert rows == [rows[0]] + rows[1..];
    }
  }

  // ---------------------------------------------------------------------
  // The handlers

  class InvestmentTable {
    var rows: seq<Investment>

    ghost predicate Valid()
      reads this
    {
      InvestmentsInvariant(rows)
    }

    constructor ()
      ensures Valid() && rows == []
    {
      rows := [];
    }

    /** GET /investments: exactly the caller's investments, latest date first. */
    method List(userId: string, faults: StoreFaults) returns (r: Response<seq<Investment>>)
      requires userId != ""
      ensures faults.read ==> r == ServerError
      ensures !faults.read ==>
        && r.Ok?
        && (forall x :: x in r.body <==> x in rows && x.userId == userId)
        && multiset(r.body) == multiset(OwnedBy(rows, userId))
        && SortedDescBy(r.body, Date)
    {
      if faults.read {
        return ServerError;
      }
      var owned := OwnedBy(rows, userId);
      var listed := SortDescBy(owned, Date);
      SortDescByPermutes(owned, Date);
      SortDescBySorted(owned, Date);
      forall x ensures x in listed <==> x in owned {
        SortDescByMembers(owned, Date, x);
      }
      r := Ok(listed);
    }

    /** POST /investments: the field check comes first, then the type check;
        on success one row is added and its submitted values are echoed. */
    method Create(userId: string, req: InvestmentRequest, freshId: string, faults: StoreFaults)
      returns (r: Response<Receipt>)
      requires Valid() && userId != ""
      requires forall x :: x in rows ==> x.id != freshId
      modifies this
      ensures Valid()
      ensures !HasRequiredFields(req) ==>
        r == BadRequest(MissingRequiredFields) && rows == old(rows)
      ensures HasRequiredFields(req) && ParseType(req.kind.value).None? ==>
        r == BadRequest(InvalidInvestmentType) && rows == old(rows)
      ensures HasRequiredFields(req) && ParseType(req.kind.value).Some? ==>
        var row := NewInvestment(freshId, userId, req, ParseType(req.kind.value).value);
        if faults.write then r == ServerError && rows == old(rows)
        else rows == old(rows) + [row] && r == Created(ReceiptOf(row))
    {
      if !HasRequiredFields(req) {
        return BadRequest(MissingRequiredFields);
      }
      var kind := ParseType(req.kind.value);
      if kind.None? {
        return BadRequest(InvalidInvestmentType);
      }
      if faults.write {
        return ServerError;
      }
      var row := NewInvestment(freshId, userId, req, kind.value);
      rows := rows + [row];
      r := Created(ReceiptOf(row));
    }

    /** DELETE /investments/:id: removes the row only when both the id and
        the owner match; a row of another user answers 404 like a missing id. */
    method Delete(userId: string, id: string, faults: StoreFaults) returns (r: Response<()>)
      requires Valid() && userId != ""
      modifies this
      ensures Valid()
      ensures faults.write ==> r == ServerError && rows == old(rows)
      ensures !faults.write && IndexOwned(old(rows), id, userId).None? ==>
        r == NotFound && rows == old(rows)
      ensures !faults.write && IndexOwned(old(rows), id, userId).Some? ==>
        var k := IndexOwned(old(rows), id, userId).value;
        r == Ok(()) && rows == old(rows)[..k] + old(rows)[k + 1..]
    {
      if faults.write {
        return ServerError;
      }
      DeleteOwnedRemovesOne(rows, id, userId);
      var remaining := DeleteOwned(rows, id, userId);
      var changes := |rows| - |remaining|;
      rows := remaining;
      if changes == 0 {
        return NotFound;
      }
      r := Ok(());
    }
  }

  /** Recording the same request twice stores two rows that differ only in
      their ids: creation does not deduplicate. */
  method RecordTwice(t: InvestmentTable, userId: string, req: InvestmentRequest,
                     id1: string, id2: string, faults: StoreFaults)
    returns (r1: Response<Receipt>, r2: Response<Receipt>)
    requires t.Valid() && userId != "" && id1 != id2
    requires forall x :: x in t.rows ==> x.id != id1 && x.id != id2
    requires !faults.write
    modifies t
    ensures r1.Created? <==> r2.Created?
    ensures !r1.Created? ==> t.rows == old(t.rows)
    ensures r1.Created? ==>
      && |t.rows| == |old(t.rows)| + 2
      && t.rows[..|old(t.rows)|] == old(t.rows)
      && t.rows[|t.rows| - 2].id == id1 && t.rows[|t.rows| - 1].id == id2
      && t.rows[|t.rows| - 2] != t.rows[|t.rows| - 1]
      && t.rows[|t.rows| - 2] == t.rows[|t.rows| - 1].(id := id1)
      && r1.body.id == id1 && r2.body.id == id2
      && r1.body == r2.body.(id := id1)
  {
    r1 := t.Create(userId, req, id1, faults);
    r2 := t.Create(userId, req, id2, faults);
  }
}
