/**
 * The `takeascommentator` and `takeasreferee` commands: after a chain of
 * guards, scan the schedule's match-id column for the requested match and
 * add the caller's display name to that match's commentator or referee cell.
 * The two commands differ only in the role they check and the column they
 * write, so one model, parameterised by `Role`, covers both.
 */
module TakeMatch {
  import opened Optional
  import JavaText
  import Roster

  /** The role a command claims a match for. */
  datatype Role = Commentator | Referee

  function Other(role: Role): Role {
    if role == Commentator then Referee else Commentator
  }

  /**
   * The answers of the checks that run before the spreadsheet is touched:
   * is a tournament running in the server, does the caller hold the
   * commentator (or referee) role of that tournament or own the server, and
   * is the tournament set up.
   */
  datatype Context = Context(
    tournamentRunning: bool,
    hasCommentatorRole: bool,
    hasRefereeRole: bool,
    properlySetUp: bool)

  /** The role check of a command looks at the snowflake of its own role. */
  function HasRole(ctx: Context, role: Role): bool {
    match role
    case Commentator => ctx.hasCommentatorRole
    case Referee => ctx.hasRefereeRole
  }

  /** The message a command ends with; `Taken` also carries the one cell written. */
  datatype Outcome =
    | NoRunningTournament
    | MissingRole(role: Role)
    | NotSetUp
    | MissingMatchId
    | NoMatchWithId(id: string)
    | AlreadyListed(role: Role)
    | Taken(role: Role, matchId: string, row: nat, value: string)

  /** The outcomes that end the command before the spreadsheet is read. */
  predicate IsGuardFailure(out: Outcome) {
    out.NoRunningTournament? || out.MissingRole? || out.NotSetUp? || out.MissingMatchId?
  }

  // ---------------------------------------------------------------- the schedule

  /** A schedule row is the match `id` when its first cell is `id`; a row without cells is no match. */
  predicate RowMatches(row: seq<string>, id: string) {
    |row| > 0 && row[0] == id
  }

  /** The index of the first row that is the match `id`, if any. */
  function FirstMatch(rows: seq<seq<string>>, id: string): (r: Option<nat>)
    ensures r.Some? ==> r.value < |rows| && RowMatches(rows[r.value], id)
    ensures forall i :: 0 <= i < |rows| && (r.None? || i < r.value) ==> !RowMatches(rows[i], id)
  {
    if |rows| == 0 then None
    else if RowMatches(rows[0], id) then Some(0)
    else
      match FirstMatch(rows[1..], id)
      case None => None
      case Some(i) => Some(i + 1)
  }

  /** The text of a roster cell; a cell that holds nothing reads as null. */
  function CellAt(column: map<nat, string>, row: nat): Option<string> {
    if row in column then Some(column[row]) else None
  }

  /** The guards, in the order the command checks them; `None` when all pass. */
  function Guard(role: Role, ctx: Context, matchId: Option<string>): (r: Option<Outcome>)
    ensures r.Some? ==> IsGuardFailure(r.value)
    ensures !ctx.tournamentRunning ==> r == Some(NoRunningTournament)
    ensures ctx.tournamentRunning && !HasRole(ctx, role) ==> r == Some(MissingRole(role))
    ensures ctx.tournamentRunning && HasRole(ctx, role) && !ctx.properlySetUp ==> r == Some(NotSetUp)
    ensures (ctx.tournamentRunning && HasRole(ctx, role) && ctx.properlySetUp
             && (matchId.None? || matchId.value == "")) ==> r == Some(MissingMatchId)
    ensures r.None? <==> ctx.tournamentRunning && HasRole(ctx, role) && ctx.properlySetUp
                         && matchId.Some? && matchId.value != ""
    ensures r == Some(MissingRole(role)) ==> ctx.tournamentRunning
    ensures r == Some(NotSetUp) ==> ctx.tournamentRunning && HasRole(ctx, role)
    ensures r == Some(MissingMatchId) ==> ctx.tournamentRunning && HasRole(ctx, role) && ctx.properlySetUp
  {
    if !ctx.tournamentRunning then Some(NoRunningTournament)
    else if !HasRole(ctx, role) then Some(MissingRole(role))
    else if !ctx.properlySetUp then Some(NotSetUp)
    else if matchId.None? || matchId.value == "" then Some(MissingMatchId)
    else None
  }

  /** The outcome of claiming the roster cell `listed` of schedule row `row`. */
  function ClaimOutcome(role: Role, id: string, row: nat, listed: Option<string>, name: string): Outcome {
    match Roster.NewRoster(listed, name)
    case AlreadyListed => AlreadyListed(role)
    case Write(v) => Taken(role, id, row, v)
  }

  /**
   * The outcome of a command: the first failing guard, or else the claim rule
   * applied to the roster cell of the first row that is the requested match.
   */
  function TakeSpec(role: Role, ctx: Context, matchId: Option<string>,
                    rows: seq<seq<string>>, column: map<nat, string>, name: string): (r: Outcome)
    ensures IsGuardFailure(r) <==> Guard(role, ctx, matchId).Some?
    ensures r.Taken? ==>
      r.role == role && matchId == Some(r.matchId) && r.row < |rows|
      && RowMatches(rows[r.row], r.matchId)
      && (forall j :: 0 <= j < r.row ==> !RowMatches(rows[j], r.matchId))
      && Roster.NewRoster(CellAt(column, r.row), name) == Roster.Write(r.value)
    ensures r.AlreadyListed? ==>
      r.role == role && matchId.Some?
      && exists i :: 0 <= i < |rows| && FirstMatch(rows, matchId.value) == Some(i)
                     && name in Roster.Listed(CellAt(column, i))
    ensures r.NoMatchWithId? ==>
      matchId == Some(r.id) && forall j :: 0 <= j < |rows| ==> !RowMatches(rows[j], r.id)
  {
    match Guard(role, ctx, matchId)
    case Some(failure) => failure
    case None =>
      var id := matchId.value;
      match FirstMatch(rows, id)
      case None => NoMatchWithId(id)
      case Some(i) => ClaimOutcome(role, id, i, CellAt(column, i), name)
  }

  // ---------------------------------------------------------------- the sheet

  /**
   * The tournament's spreadsheet as far as the commands see it: the match-id
   * column of the schedule tab, one list of cells per row, and the
   * commentator and referee columns, keyed by the same row index.
   */
  class Schedule {
    var matchIds: seq<seq<string>>
    var commentators: map<nat, string>
    var referees: map<nat, string>

    constructor (matchIds: seq<seq<string>>, commentators: map<nat, string>, referees: map<nat, string>)
      ensures this.matchIds == matchIds
      ensures this.commentators == commentators && this.referees == referees
    {
      this.matchIds := matchIds;
      this.commentators := commentators;
      this.referees := referees;
    }

    /** The column a role's roster is kept in. */
    function Column(role: Role): map<nat, string>
      reads this
    {
      if role == Commentator then commentators else referees
    }

    /** Overwrite one roster cell. */
    method WriteCell(role: Role, row: nat, value: string)
      modifies this
      ensures Column(role) == old(Column(role))[row := value]
      ensures Column(Other(role)) == old(Column(Other(role)))
      ensures matchIds == old(matchIds)
    {
      if role == Commentator {
        commentators := commentators[row := value];
      } else {
        referees := referees[row := value];
      }
    }

    /**
     * Claim the roster cell of row `row`: look the caller up in it and, unless
     * they are listed already, write the cell back with their name added.
     */
    method Claim(role: Role, id: string, row: nat, name: string) returns (out: Outcome)
      modifies this
      ensures out == ClaimOutcome(role, id, row, CellAt(old(Column(role)), row), name)
      ensures !out.Taken? ==> unchanged(this)
      ensures out.Taken? ==>
        Column(role) == old(Column(role))[row := out.value]
        && Column(Other(role)) == old(Column(Other(role)))
        && matchIds == old(matchIds)
    {
      var listed := CellAt(Column(role), row);
      var change := Roster.UpdateRoster(listed, name);
      match change {
        case AlreadyListed =>
          return AlreadyListed(role);
        case Write(v) =>
          WriteCell(role, row, v);
          return Taken(role, id, row, v);
      }
    }

    /**
     * Run a command. The guards are checked in order and each one ends the
     * command with the sheet untouched; otherwise the rows are scanned in
     * order and the first row that is the match gets its roster cell
     * rewritten, or the caller is told they are listed already or that the
     * match does not exist. At most one cell changes.
     */
    method Execute(role: Role, ctx: Context, matchId: Option<string>, name: string) returns (out: Outcome)
      modifies this
      ensures out == TakeSpec(role, ctx, matchId, old(matchIds), old(Column(role)), name)
      ensures !ctx.tournamentRunning ==> out == NoRunningTournament
      ensures ctx.tournamentRunning && !HasRole(ctx, role) ==> out == MissingRole(role)
      ensures ctx.tournamentRunning && HasRole(ctx, role) && !ctx.properlySetUp ==> out == NotSetUp
      ensures (ctx.tournamentRunning && HasRole(ctx, role) && ctx.properlySetUp
               && (matchId.None? || matchId.value == "")) ==> out == MissingMatchId
      ensures !out.Taken? ==> unchanged(this)
      ensures out.Taken? ==>
        Column(role) == old(Column(role))[out.row := out.value]
        && Column(Other(role)) == old(Column(Other(role)))
        && matchIds == old(matchIds)
    {
      if !ctx.tournamentRunning {
        return NoRunningTournament;
      }
      if !HasRole(ctx, role) {
        return MissingRole(role);
      }
      if !ctx.properlySetUp {
        return NotSetUp;
      }
      if matchId.None? || matchId.value == "" {
        return MissingMatchId;
      }
      assert Guard(role, ctx, matchId).None?;
      var id := matchId.value;
      var rows := matchIds;
      for i := 0 to |rows|
        invariant forall j :: 0 <= j < i ==> !RowMatches(rows[j], id)
        invariant unchanged(this)
      {
        var current := rows[i];
        var first := if |current| > 0 then Some(current[0]) else None;
        if first.Some? && first.value == id {
          assert FirstMatch(rows, id) == Some(i);
          out := Claim(role, id, i, name);
          return;
        }
      }
      assert FirstMatch(rows, id).None?;
      return NoMatchWithId(id);
    }
  }

  // ---------------------------------------------------------------- properties

  /**
   * A failing guard decides the outcome whatever the spreadsheet holds: the
   * command never looks at the sheet before all guards have passed.
   */
  lemma {:induction false} GuardsPrecedeSheet(role: Role, ctx: Context, matchId: Option<string>,
                           rows: seq<seq<string>>, column: map<nat, string>,
                           rows': seq<seq<string>>, column': map<nat, string>, name: string)
    requires Guard(role, ctx, matchId).Some?
    ensures TakeSpec(role, ctx, matchId, rows, column, name) == Guard(role, ctx, matchId).value
    ensures TakeSpec(role, ctx, matchId, rows, column, name) == TakeSpec(role, ctx, matchId, rows', column', name)
  {
  }

  /** Only the first row that is the match counts: a later row with the same id is never written. */
  lemma {:induction false} OnlyFirstMatchingRow(role: Role, ctx: Context, matchId: Option<string>,
                             rows: seq<seq<string>>, column: map<nat, string>, name: string, j: nat)
    requires Guard(role, ctx, matchId).None?
    requires j < |rows| && RowMatches(rows[j], matchId.value)
    ensures var r := TakeSpec(role, ctx, matchId, rows, column, name);
            (r.Taken? && r.row <= j) || r.AlreadyListed?
  {
  }

  /**
   * Writing the cell a successful command computed and running the same
   * command again finds the caller already listed, provided the display name
   * reads back unchanged from a roster (no '/', no surrounding spaces).
   */
  lemma {:induction false} RetakeIsRejected(role: Role, ctx: Context, matchId: Option<string>,
                         rows: seq<seq<string>>, column: map<nat, string>, name: string)
    requires JavaText.PlainName(name)
    requires TakeSpec(role, ctx, matchId, rows, column, name).Taken?
    ensures var r := TakeSpec(role, ctx, matchId, rows, column, name);
            TakeSpec(role, ctx, matchId, rows, column[r.row := r.value], name) == AlreadyListed(role)
  {
    var r := TakeSpec(role, ctx, matchId, rows, column, name);
    Roster.SecondClaimRejected(CellAt(column, r.row), name);
    assert CellAt(column[r.row := r.value], r.row) == Some(r.value);
    assert FirstMatch(rows, matchId.value) == Some(r.row);
  }

  /**
   * After a successful command the written cell lists the names it listed
   * before, in order, followed by the caller.
   */
  lemma {:induction false} TakenCellLists(role: Role, ctx: Context, matchId: Option<string>,
                       rows: seq<seq<string>>, column: map<nat, string>, name: string)
    requires JavaText.PlainName(name)
    requires TakeSpec(role, ctx, matchId, rows, column, name).Taken?
    ensures var r := TakeSpec(role, ctx, matchId, rows, column, name);
            Roster.Entries(r.value) == Roster.Listed(CellAt(column, r.row)) + [name]
  {
    var r := TakeSpec(role, ctx, matchId, rows, column, name);
    Roster.EntriesAfterWrite(CellAt(column, r.row), name);
  }
}
