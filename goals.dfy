/** The goal lifecycle of `src/controllers/goalController.ts`: listing a
    user's savings goals with an optional status filter, creating a goal
    while no other goal of that user is active, and moving a goal to
    `completed` or `cancelled`. The `goals` table is a sequence of rows in
    insertion order; each handler is a method on it. */
module Goals {
  import opened Outcomes
  import opened Text
  import opened Ordering

  /** The `CHECK(status IN ('active', 'completed', 'cancelled'))` column. */
  datatype GoalStatus = Active | Completed | Cancelled

  /** One row of `goals`; `completedAt` is the nullable `completed_at`. */
  datatype Goal = Goal(
    id: string,
    userId: string,
    targetAmount: real,
    status: GoalStatus,
    createdAt: string,
    completedAt: Option<string>)

  /** The wire and column spelling of a status. */
  function StatusName(s: GoalStatus): (r: string)
    ensures |r| > 0 && ',' !in r
  {
    match s
    case Active => "active"
    case Completed => "completed"
    case Cancelled => "cancelled"
  }

  /** `validStatuses.includes(s)`, returning the status it names. */
  function ParseStatus(s: string): (r: Option<GoalStatus>)
    ensures r.Some? ==> StatusName(r.value) == s
    ensures r.None? ==> forall st :: StatusName(st) != s
  {
    if s == "active" then Some(Active)
    else if s == "completed" then Some(Completed)
    else if s == "cancelled" then Some(Cancelled)
    else None
  }

  lemma ParseStatusName(st: GoalStatus)
    ensures ParseStatus(StatusName(st)) == Some(st)
  {
  }

  // ---------------------------------------------------------------------
  // The status filter of GET /goals

  /** No filter, or the statuses of an `IN (…)` clause. */
  datatype StatusFilter = AnyStatus | AnyOf(statuses: set<GoalStatus>)

  /** The outcome of validating the `status` query parameter. */
  datatype ParsedFilter = Accepted(filter: StatusFilter) | Rejected(invalid: seq<string>)

  /** `statusParam.split(',').map((s) => s.trim())`. */
  function StatusPieces(param: string): (r: seq<string>)
    ensures |r| >= 1
    ensures forall i :: 0 <= i < |r| ==> ',' !in r[i]
    ensures forall i :: 0 <= i < |r| ==> r[i] == [] || (!IsWhitespace(r[i][0]) && !IsWhitespace(r[i][|r[i]| - 1]))
  {
    var pieces := Split(param, ',');
    var r := TrimAll(pieces);
    assert forall i :: 0 <= i < |r| ==> ',' !in r[i] by {
      forall i | 0 <= i < |r| ensures ',' !in r[i] {
        TrimKeepsCharacters(pieces[i]);
      }
    }
    r
  }

  /** `s.filter(keep)`: the elements `keep` accepts, in their order. */
  function Filter<T(!new)>(s: seq<T>, keep: T -> bool): (r: seq<T>)
    ensures |r| <= |s|
    ensures forall x :: x in r <==> x in s && keep(x)
  {
    if s == [] then []
    else (if keep(s[0]) then [s[0]] else []) + Filter(s[1..], keep)
  }

  /** Filtering two runs one after the other is filtering their concatenation. */
  lemma {:induction false} FilterAppend<T(!new)>(a: seq<T>, b: seq<T>, keep: T -> bool)
    ensures Filter(a + b, keep) == Filter(a, keep) + Filter(b, keep)
  {
    if a == [] {
      assert a + b == b;
    } else {
      FilterAppend(a[1..], b, keep);
      var head := if keep(a[0]) then [a[0]] else [];
      DropOfConcat(a, b);
      assert Filter(a + b, keep) == head + Filter(a[1..] + b, keep);
      assert Filter(a, keep) == head + Filter(a[1..], keep);
      ConcatAssoc(head, Filter(a[1..], keep), Filter(b, keep));
    }
  }

  lemma DropOfConcat<T>(a: seq<T>, b: seq<T>)
    requires a != []
    ensures (a + b)[0] == a[0] && (a + b)[1..] == a[1..] + b
  {
  }

  lemma ConcatAssoc<T>(p: seq<T>, q: seq<T>, r: seq<T>)
    ensures p + (q + r) == (p + q) + r
  {
  }

  /** `!validStatuses.includes(s)`. */
  predicate NamesNoStatus(p: string)
  {
    ParseStatus(p).None?
  }

  /** `statuses.filter((s) => !validStatuses.includes(s))`: the pieces that
      name no status, in their order. */
  function InvalidPieces(pieces: seq<string>): (r: seq<string>)
    ensures |r| <= |pieces|
    ensures forall p :: p in r <==> p in pieces && ParseStatus(p).None?
  {
    Filter(pieces, NamesNoStatus)
  }

  /** The invalid pieces of two runs of pieces are those of the first run
      followed by those of the second: the 400 lists them in request order. */
  lemma InvalidPiecesAppend(a: seq<string>, b: seq<string>)
    ensures InvalidPieces(a + b) == InvalidPieces(a) + InvalidPieces(b)
  {
    FilterAppend(a, b, NamesNoStatus);
  }

  /** The statuses named by pieces that all name one. */
  function StatusSet(pieces: seq<string>): (r: set<GoalStatus>)
    requires forall p :: p in pieces ==> ParseStatus(p).Some?
    ensures forall st :: st in r <==> StatusName(st) in pieces
  {
    var r := set p | p in pieces :: ParseStatus(p).value;
    assert forall st :: st in r <==> StatusName(st) in pieces by {
      forall st ensures st in r <==> StatusName(st) in pieces {
        ParseStatusName(st);
      }
    }
    r
  }

  /** Validates the optional `status` parameter: absent or empty means no
      filter; otherwise every trimmed piece must name a status, and a
      failure reports all invalid pieces. */
  function ParseStatusFilter(param: Option<string>): (r: ParsedFilter)
    ensures (param.None? || param.value == "") ==> r == Accepted(AnyStatus)
    ensures param.Some? && param.value != "" ==>
      (r.Rejected? <==> exists p :: p in StatusPieces(param.value) && ParseStatus(p).None?)
    ensures r.Rejected? ==> (r.invalid != [] && param.Some? &&
      forall p :: p in r.invalid <==> p in StatusPieces(param.value) && ParseStatus(p).None?)
    ensures r.Rejected? ==> param.Some? && r.invalid == InvalidPieces(StatusPieces(param.value))
    ensures r.Accepted? && param.Some? && param.value != "" ==>
      (r.filter.AnyOf? && forall st :: st in r.filter.statuses <==> StatusName(st) in StatusPieces(param.value))
  {
    if param.None? || param.value == "" then Accepted(AnyStatus)
    else
      var pieces := StatusPieces(param.value);
      var invalid := InvalidPieces(pieces);
      if invalid != [] then
        assert invalid[0] in invalid;
        Rejected(invalid)
      else
        assert forall p :: p in pieces ==> p !in invalid;
        Accepted(AnyOf(StatusSet(pieces)))
  }

  /** The statuses as a client writes them in the query string. */
  function StatusNames(ss: seq<GoalStatus>): (r: seq<string>)
    ensures |r| == |ss|
    ensures forall i :: 0 <= i < |ss| ==> r[i] == StatusName(ss[i])
  {
    if ss == [] then [] else [StatusName(ss[0])] + StatusNames(ss[1..])
  }

  /** Round trip of the wire form: `?status=` followed by a comma-joined
      list of status names selects exactly the listed statuses. */
  lemma FilterOfJoinedNames(ss: seq<GoalStatus>)
    requires |ss| >= 1
    ensures ParseStatusFilter(Some(Join(StatusNames(ss), ','))) == Accepted(AnyOf(set st | st in ss))
  {
    var statuses := JoinedNamesAccepted(ss);
    NamedStatusSet(ss, statuses);
  }

  /** A joined, non-empty list of names is accepted as the filter on the
      statuses those names name. */
  lemma JoinedNamesAccepted(ss: seq<GoalStatus>) returns (statuses: set<GoalStatus>)
    requires |ss| >= 1
    ensures ParseStatusFilter(Some(Join(StatusNames(ss), ','))) == Accepted(AnyOf(statuses))
    ensures forall st :: st in statuses <==> StatusName(st) in StatusNames(ss)
  {
    PiecesOfJoinedNames(ss);
    JoinedNamesNonEmpty(ss);
    NamesAreStatuses(ss);
    statuses := AcceptedFilter(Join(StatusNames(ss), ','));
  }

  /** The statuses whose names are listed are the listed statuses. */
  lemma NamedStatusSet(ss: seq<GoalStatus>, statuses: set<GoalStatus>)
    requires forall st :: st in statuses <==> StatusName(st) in StatusNames(ss)
    ensures statuses == set st | st in ss
  {
    var expected := set st | st in ss;
    forall st ensures st in statuses <==> st in expected {
      NamesMembership(ss, st);
    }
  }

  /** Every listed name names a status. */
  lemma NamesAreStatuses(ss: seq<GoalStatus>)
    ensures forall p :: p in StatusNames(ss) ==> ParseStatus(p).Some?
  {
    var names := StatusNames(ss);
    forall p | p in names ensures ParseStatus(p).Some? {
      var i :| 0 <= i < |names| && names[i] == p;
      ParseStatusName(ss[i]);
    }
  }

  /** A non-empty parameter whose pieces all name statuses is accepted as
      the filter on exactly those statuses. */
  lemma AcceptedFilter(param: string) returns (statuses: set<GoalStatus>)
    requires param != ""
    requires forall p :: p in StatusPieces(param) ==> ParseStatus(p).Some?
    ensures ParseStatusFilter(Some(param)) == Accepted(AnyOf(statuses))
    ensures forall st :: st in statuses <==> StatusName(st) in StatusPieces(param)
  {
    statuses := ParseStatusFilter(Some(param)).filter.statuses;
  }

  /** The pieces of a joined, non-empty list of names are the names. */
  lemma PiecesOfJoinedNames(ss: seq<GoalStatus>)
    requires |ss| >= 1
    ensures StatusPieces(Join(StatusNames(ss), ',')) == StatusNames(ss)
  {
    StatusNamesClean(ss);
    PiecesOfJoin(StatusNames(ss));
  }

  /** A joined, non-empty list of names is a non-empty parameter. */
  lemma JoinedNamesNonEmpty(ss: seq<GoalStatus>)
    requires |ss| >= 1
    ensures Join(StatusNames(ss), ',') != ""
  {
    var names := StatusNames(ss);
    assert names[0] == StatusName(ss[0]);
    JoinFirst(names, ',');
  }

  /** Listed names hold no comma and no surrounding whitespace. */
  lemma StatusNamesClean(ss: seq<GoalStatus>)
    ensures forall i :: 0 <= i < |StatusNames(ss)| ==>
      ',' !in StatusNames(ss)[i] && Trim(StatusNames(ss)[i]) == StatusNames(ss)[i]
  {
    var names := StatusNames(ss);
    forall i | 0 <= i < |names| ensures ',' !in names[i] && Trim(names[i]) == names[i] {
      StatusNameTrimmed(ss[i]);
    }
  }

  /** Comma-free, trimmed pieces survive the parser's split and trim. */
  lemma PiecesOfJoin(names: seq<string>)
    requires |names| >= 1
    requires forall i :: 0 <= i < |names| ==> ',' !in names[i] && Trim(names[i]) == names[i]
    ensures StatusPieces(Join(names, ',')) == names
  {
    SplitJoin(names, ',');
    assert TrimAll(names) == names;
  }

  /** Status names carry no surrounding whitespace. */
  lemma StatusNameTrimmed(st: GoalStatus)
    ensures Trim(StatusName(st)) == StatusName(st) && ',' !in StatusName(st)
  {
    var n := StatusName(st);
    assert !IsWhitespace(n[0]) && !IsWhitespace(n[|n| - 1]) && ',' !in n by {
      match st
      case Active =>
      case Completed =>
      case Cancelled =>
    }
    TrimTrimmed(n);
  }

  /** A status is listed exactly when its name is. */
  lemma NamesMembership(ss: seq<GoalStatus>, st: GoalStatus)
    ensures st in ss <==> StatusName(st) in StatusNames(ss)
  {
    var names := StatusNames(ss);
    if StatusName(st) in names {
      var i :| 0 <= i < |names| && names[i] == StatusName(st);
      ParseStatusName(ss[i]);
      ParseStatusName(st);
    }
  }

  /** A join starts with its first piece. */
  lemma JoinFirst(pieces: seq<string>, sep: char)
    requires |pieces| >= 1 && pieces[0] != ""
    ensures Join(pieces, sep) != ""
  {
    if |pieces| > 1 {
      assert Join(pieces, sep)[0] == pieces[0][0];
    }
  }

  // ---------------------------------------------------------------------
  // Table invariants, from the schema and the handlers' rules

  /** `id TEXT PRIMARY KEY`. */
  ghost predicate UniqueIds(rows: seq<Goal>)
  {
    forall i, j :: 0 <= i < j < |rows| ==> rows[i].id != rows[j].id
  }

  /** At most one `active` goal per `user_id`. */
  ghost predicate SingleActivePerUser(rows: seq<Goal>)
  {
    forall i, j :: 0 <= i < j < |rows| && rows[i].status == Active && rows[j].status == Active
      ==> rows[i].userId != rows[j].userId
  }

  /** `completed_at` is set exactly when the goal is completed; the owner is
      a signed-in user and the target is positive. */
  ghost predicate WellFormed(g: Goal)
  {
    && (g.completedAt.Some? <==> g.status == Completed)
    && g.userId != ""
    && g.targetAmount > 0.0
  }

  ghost predicate GoalsInvariant(rows: seq<Goal>)
  {
    && UniqueIds(rows)
    && SingleActivePerUser(rows)
    && forall g :: g in rows ==> WellFormed(g)
  }

  // ---------------------------------------------------------------------
  // Queries and row updates the handlers are specified by

  /** `g` is selected by `WHERE user_id = ? [AND status IN (…)]`. */
  predicate Selects(f: StatusFilter, g: Goal, userId: string)
  {
    g.userId == userId && (f.AnyStatus? || g.status in f.statuses)
  }

  /** The selected rows, in table order. */
  function SelectGoals(rows: seq<Goal>, userId: string, f: StatusFilter): (r: seq<Goal>)
    ensures |r| <= |rows|
    ensures forall g :: g in r <==> g in rows && Selects(f, g, userId)
  {
    if rows == [] then []
    else (if Selects(f, rows[0], userId) then [rows[0]] else []) + SelectGoals(rows[1..], userId, f)
  }

  /** The sort key of `ORDER BY created_at DESC`. */
  function CreatedAt(g: Goal): string
  {
    g.createdAt
  }

  /** `SELECT id FROM goals WHERE user_id = ? AND status = 'active'` finds a row. */
  predicate HasActive(rows: seq<Goal>, userId: string)
  {
    exists g :: g in rows && g.userId == userId && g.status == Active
  }

  /** `SELECT * FROM goals WHERE id = ? AND user_id = ?`: the index of the
      first matching row, if any. */
  function FindOwned(rows: seq<Goal>, id: string, userId: string): (r: Option<nat>)
    ensures r.Some? ==> r.value < |rows| && rows[r.value].id == id && rows[r.value].userId == userId
    ensures r.Some? ==> forall k :: 0 <= k < r.value ==> !(rows[k].id == id && rows[k].userId == userId)
    ensures r.None? ==> forall g :: g in rows ==> !(g.id == id && g.userId == userId)
  {
    if rows == [] then None
    else if rows[0].id == id && rows[0].userId == userId then Some(0)
    else match FindOwned(rows[1..], id, userId)
      case None => None
      case Some(i) => Some(i + 1)
  }

  /** `target_amount` passes `!target_amount || target_amount <= 0`. */
  predicate ValidTargetAmount(amount: Option<real>)
  {
    amount.Some? && amount.value > 0.0
  }

  /** The row `createGoal` inserts: status forced to `active`, no
      completion time, `created_at` from the store's clock. */
  function NewGoal(id: string, userId: string, amount: real, createdAt: string): (g: Goal)
    ensures g.status == Active && g.completedAt == None
  {
    Goal(id, userId, amount, Active, createdAt, None)
  }

  /** The status `updateGoal` accepts: only `completed` and `cancelled`. */
  function ParseTargetStatus(status: Option<string>): (r: Option<GoalStatus>)
    ensures r.Some? ==> r.value != Active && status.Some? && StatusName(r.value) == status.value
    ensures r.None? <==> status.None? || (status.value != "completed" && status.value != "cancelled")
  {
    if status == Some("completed") then Some(Completed)
    else if status == Some("cancelled") then Some(Cancelled)
    else None
  }

  /** `UPDATE goals SET status = ?, completed_at = ?` on one row:
      `completed_at` is `now` for `completed` and NULL otherwise. */
  function Transition(g: Goal, target: GoalStatus, now: string): (r: Goal)
    ensures r.id == g.id && r.userId == g.userId && r.targetAmount == g.targetAmount
    ensures r.createdAt == g.createdAt && r.status == target
    ensures r.completedAt.Some? <==> target == Completed
    ensures target == Completed ==> r.completedAt == Some(now)
  {
    g.(status := target, completedAt := if target == Completed then Some(now) else None)
  }

  // ---------------------------------------------------------------------
  // Lemmas about the invariants

  /** Listing a user's active goals never gives more than one. */
  lemma {:induction false} AtMostOneActiveListed(rows: seq<Goal>, userId: string)
    requires SingleActivePerUser(rows)
    ensures |SelectGoals(rows, userId, AnyOf({Active}))| <= 1
  {
    if rows != [] {
      var tail := rows[1..];
      assert SingleActivePerUser(tail) by {
        forall i, j | 0 <= i < j < |tail| && tail[i].status == Active && tail[j].status == Active
          ensures tail[i].userId != tail[j].userId
        {
          assert tail[i] == rows[i + 1] && tail[j] == rows[j + 1];
        }
      }
      AtMostOneActiveListed(tail, userId);
      var later := SelectGoals(tail, userId, AnyOf({Active}));
      if Selects(AnyOf({Active}), rows[0], userId) {
        forall g | g in tail ensures !Selects(AnyOf({Active}), g, userId) {
          var j :| 0 <= j < |tail| && tail[j] == g;
          assert rows[j + 1] == g;
        }
        NoneSelected(tail, userId, AnyOf({Active}));
      }
    }
  }

  /** A selection with no selected row is empty. */
  lemma {:induction false} NoneSelected(rows: seq<Goal>, userId: string, f: StatusFilter)
    requires forall g :: g in rows ==> !Selects(f, g, userId)
    ensures SelectGoals(rows, userId, f) == []
  {
    if rows != [] {
      assert rows[0] in rows;
      NoneSelected(rows[1..], userId, f);
    }
  }

  /** Inserting an active goal for a user with no active goal keeps the
      table invariant. */
  lemma InsertPreservesInvariant(rows: seq<Goal>, g: Goal)
    requires GoalsInvariant(rows)
    requires WellFormed(g)
    requires forall h :: h in rows ==> h.id != g.id
    requires !HasActive(rows, g.userId)
    ensures GoalsInvariant(rows + [g])
  {
    var rows' := rows + [g];
    forall i, j | 0 <= i < j < |rows'| ensures rows'[i].id != rows'[j].id {
      if j == |rows| { assert rows'[i] in rows; }
    }
    forall i, j | 0 <= i < j < |rows'| && rows'[i].status == Active && rows'[j].status == Active
      ensures rows'[i].userId != rows'[j].userId
    {
      if j == |rows| { assert rows'[i] in rows; }
    }
  }

  /** Moving one row to `completed` or `cancelled` keeps the table invariant,
      whatever its previous status. */
  lemma TransitionPreservesInvariant(rows: seq<Goal>, i: nat, target: GoalStatus, now: string)
    requires GoalsInvariant(rows)
    requires i < |rows| && target != Active
    ensures GoalsInvariant(rows[i := Transition(rows[i], target, now)])
  {
    var rows' := rows[i := Transition(rows[i], target, now)];
    forall g | g in rows' ensures WellFormed(g) {
      var k :| 0 <= k < |rows'| && rows'[k] == g;
      if k != i { assert rows[k] in rows; } else { assert rows[i] in rows; }
    }
  }

  // ---------------------------------------------------------------------
  // The handlers

  class GoalTable {
    var rows: seq<Goal>

    ghost predicate Valid()
      reads this
    {
      GoalsInvariant(rows)
    }

    constructor ()
      ensures Valid() && rows == []
    {
      rows := [];
    }

    /** GET /goals: the caller's goals, optionally filtered by status,
        newest first; 400 names every invalid filter value. */
    method List(userId: string, statusParam: Option<string>, faults: StoreFaults)
      returns (r: Response<seq<Goal>>)
      requires userId != ""
      ensures ParseStatusFilter(statusParam).Rejected? ==>
        r == BadRequest(InvalidStatusValues(ParseStatusFilter(statusParam).invalid))
      ensures ParseStatusFilter(statusParam).Accepted? && faults.read ==> r == ServerError
      ensures ParseStatusFilter(statusParam).Accepted? && !faults.read ==>
        var f := ParseStatusFilter(statusParam).filter;
        && r.Ok?
        && (forall g :: g in r.body <==> g in rows && Selects(f, g, userId))
        && multiset(r.body) == multiset(SelectGoals(rows, userId, f))
        && SortedDescBy(r.body, CreatedAt)
    {
      var parsed := ParseStatusFilter(statusParam);
      if parsed.Rejected? {
        return BadRequest(InvalidStatusValues(parsed.invalid));
      }
      if faults.read {
        return ServerError;
      }
      var selected := SelectGoals(rows, userId, parsed.filter);
      var listed := SortDescBy(selected, CreatedAt);
      SortDescByPermutes(selected, CreatedAt);
      SortDescBySorted(selected, CreatedAt);
      forall g ensures g in listed <==> g in selected {
        SortDescByMembers(selected, CreatedAt, g);
      }
      r := Ok(listed);
    }

    /** POST /goals: refuses a non-positive or missing target and a second
        active goal; otherwise inserts one active goal with the fresh id.
        A failure of the read-back after the insert answers 500 although
        the row is stored. */
    method Create(userId: string, targetAmount: Option<real>, freshId: string,
                  createdAt: string, faults: StoreFaults)
      returns (r: Response<Goal>)
      requires Valid() && userId != ""
      requires forall g :: g in rows ==> g.id != freshId
      modifies this
      ensures Valid()
      ensures !ValidTargetAmount(targetAmount) ==>
        r == BadRequest(InvalidTargetAmount) && rows == old(rows)
      ensures ValidTargetAmount(targetAmount) && faults.read ==>
        r == ServerError && rows == old(rows)
      ensures ValidTargetAmount(targetAmount) && !faults.read && HasActive(old(rows), userId) ==>
        r == BadRequest(ActiveGoalExists) && rows == old(rows)
      ensures ValidTargetAmount(targetAmount) && !faults.read && !HasActive(old(rows), userId) ==>
        var g := NewGoal(freshId, userId, targetAmount.value, createdAt);
        if faults.write then r == ServerError && rows == old(rows)
        else rows == old(rows) + [g] && r == (if faults.readBack then ServerError else Created(g))
    {
      if !ValidTargetAmount(targetAmount) {
        return BadRequest(InvalidTargetAmount);
      }
      if faults.read {
        return ServerError;
      }
      if HasActive(rows, userId) {
        return BadRequest(ActiveGoalExists);
      }
      if faults.write {
        return ServerError;
      }
      var g := NewGoal(freshId, userId, targetAmount.value, createdAt);
      InsertPreservesInvariant(rows, g);
      rows := rows + [g];
      if faults.readBack {
        return ServerError;
      }
      r := Created(g);
    }

    /** PATCH /goals/:id: accepts only `completed` or `cancelled`, answers 404
        for a goal the caller does not own, refuses a same-status update,
        and otherwise changes the status and `completed_at` of that one row. */
    method Update(userId: string, id: string, status: Option<string>, now: string,
                  faults: StoreFaults)
      returns (r: Response<Goal>)
      requires Valid() && userId != ""
      modifies this
      ensures Valid()
      ensures ParseTargetStatus(status).None? ==>
        r == BadRequest(InvalidTargetStatus) && rows == old(rows)
      ensures ParseTargetStatus(status).Some? && faults.read ==>
        r == ServerError && rows == old(rows)
      ensures (ParseTargetStatus(status).Some? && !faults.read
        && FindOwned(old(rows), id, userId).None?) ==>
        r == NotFound && rows == old(rows)
      ensures (ParseTargetStatus(status).Some? && !faults.read
        && FindOwned(old(rows), id, userId).Some?) ==>
        var target := ParseTargetStatus(status).value;
        var i := FindOwned(old(rows), id, userId).value;
        if old(rows)[i].status == target then
          r == BadRequest(AlreadyInStatus(StatusName(target))) && rows == old(rows)
        else if faults.write then
          r == ServerError && rows == old(rows)
        else
          && rows == old(rows)[i := Transition(old(rows)[i], target, now)]
          && r == (if faults.readBack then ServerError else Ok(rows[i]))
    {
      var target := ParseTargetStatus(status);
      if target.None? {
        return BadRequest(InvalidTargetStatus);
      }
      if faults.read {
        return ServerError;
      }
      var found := FindOwned(rows, id, userId);
      if found.None? {
        return NotFound;
      }
      var i := found.value;
      if rows[i].status == target.value {
        return BadRequest(AlreadyInStatus(StatusName(target.value)));
      }
      if faults.write {
        return ServerError;
      }
      TransitionPreservesInvariant(rows, i, target.value, now);
      rows := rows[i := Transition(rows[i], target.value, now)];
      if faults.readBack {
        return ServerError;
      }
      r := Ok(rows[i]);
    }
  }

  /** A goal's life for one user: the first goal is created active, a
      second is refused while it is active, completing the first stamps
      `completed_at`, and a new goal can then be created. */
  method GoalLifecycle(userId: string, id1: string, id2: string, id3: string,
                       created1: string, created2: string, created3: string, now: string)
    returns (first: Response<Goal>, second: Response<Goal>,
             completed: Response<Goal>, third: Response<Goal>)
    requires userId != "" && id1 != id2 && id1 != id3
    ensures first.Created? && first.body.status == Active && first.body.completedAt == None
    ensures second == BadRequest(ActiveGoalExists)
    ensures completed.Ok? && completed.body.status == Completed
    ensures completed.body.completedAt == Some(now)
    ensures third.Created? && third.body.id == id3
  {
    var table := new GoalTable();
    var healthy := StoreFaults(false, false, false);
    first := table.Create(userId, Some(500.0), id1, created1, healthy);
    assert table.rows == [NewGoal(id1, userId, 500.0, created1)];
    assert table.rows[0] in table.rows;
    second := table.Create(userId, Some(300.0), id2, created2, healthy);
    completed := table.Update(userId, id1, Some("completed"), now, healthy);
    assert table.rows[0].status == Completed && |table.rows| == 1;
    assert !HasActive(table.rows, userId) by {
      forall g | g in table.rows ensures g.status != Active {
        assert g == table.rows[0];
      }
    }
    third := table.Create(userId, Some(300.0), id3, created3, healthy);
  }
}
