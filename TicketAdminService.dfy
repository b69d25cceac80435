/** Ticket administration: the paged listing and the unrestricted status update. */
module TicketAdminService {
  import opened Wrappers
  import opened Domain
  import opened TicketEntity
  import opened TicketRepository
  import opened TicketService

  /** The ticket view: every column, the preset reference as its id. */
  datatype SupportTicketResponse = SupportTicketResponse(
    id: TicketId,
    userId: UserId,
    role: UserRole,
    issueType: SupportIssueType,
    selectedIssueId: Option<PresetId>,
    comment: Option<string>,
    status: SupportTicketStatus,
    createdAt: int,
    updatedAt: int)

  /** `toDto`: a field-by-field copy. */
  function ToDto(t: TicketRow): SupportTicketResponse {
    SupportTicketResponse(t.id, t.userId, t.role, t.issueType, t.selectedIssueId, t.comment,
                          t.status, t.createdAt, t.updatedAt)
  }

  /** The tickets a listing draws from: all of them, or those of one status. */
  function Source(rows: seq<TicketRow>, status: Option<SupportTicketStatus>): seq<TicketRow> {
    if status.None? then rows else FindAllByStatus(rows, status.value)
  }

  /** `listTickets`: the requested page of the source, mapped element by element. */
  function ListTickets(rows: seq<TicketRow>, status: Option<SupportTicketStatus>, page: PageRequest): (r: seq<SupportTicketResponse>)
    ensures var q := PageOf(Source(rows, status), page);
      |r| == |q| && forall i :: 0 <= i < |r| ==> r[i] == ToDto(q[i])
  {
    var q := PageOf(Source(rows, status), page);
    seq(|q|, i requires 0 <= i < |q| => ToDto(q[i]))
  }

  /** The listing's source holds stored tickets only, of the requested status when one is given. */
  lemma SourceMatchesTheFilter(rows: seq<TicketRow>, status: Option<SupportTicketStatus>, t: TicketRow)
    requires t in Source(rows, status)
    ensures t in rows && (status.Some? ==> t.status == status.value)
  {
  }

  /** Every listed ticket is stored, and has the requested status when one is given. */
  lemma ListedTicketsMatchTheFilter(rows: seq<TicketRow>, status: Option<SupportTicketStatus>, page: PageRequest, i: int)
    requires 0 <= i < |ListTickets(rows, status, page)|
    ensures var v := ListTickets(rows, status, page)[i];
      && (exists t :: t in rows && v == ToDto(t))
      && (status.Some? ==> v.status == status.value)
  {
    var src := Source(rows, status);
    var q := PageOf(src, page);
    PageElementIsFromSource(src, page, i);
    SourceMatchesTheFilter(rows, status, q[i]);
    assert ListTickets(rows, status, page)[i] == ToDto(q[i]);
  }

  /** The ticket at position `number * size + j` of the listing is entry `j` of that page. */
  lemma EveryTicketIsOnItsPage(rows: seq<TicketRow>, status: Option<SupportTicketStatus>, page: PageRequest, j: nat)
    requires j < page.size && PageStart(page) + j < |Source(rows, status)|
    ensures var r := ListTickets(rows, status, page);
      j < |r| && r[j] == ToDto(Source(rows, status)[PageStart(page) + j])
  {
    PageEntry(Source(rows, status), page, j);
  }

  /** The store after `updateStatus(id, s)`: only that ticket's status changes, and its `updatedAt` with it. */
  function ApplyStatus(rows: seq<TicketRow>, id: TicketId, status: SupportTicketStatus, now: int): (r: seq<TicketRow>)
    ensures |r| == |rows|
    ensures forall k :: 0 <= k < |rows| && rows[k].id != id ==> r[k] == rows[k]
    ensures forall k :: 0 <= k < |rows| && rows[k].id == id ==>
      && r[k].status == status
      && r[k] == rows[k].(status := status, updatedAt := r[k].updatedAt)
      && r[k].updatedAt == if rows[k].status == status then rows[k].updatedAt else now
  {
    seq(|rows|, k requires 0 <= k < |rows| =>
      if rows[k].id == id && rows[k].status != status then rows[k].(status := status, updatedAt := now)
      else rows[k])
  }

  /** Setting a status twice is the same as setting it once. */
  lemma ApplyStatusIdempotent(rows: seq<TicketRow>, id: TicketId, status: SupportTicketStatus, now: int, later: int)
    ensures ApplyStatus(ApplyStatus(rows, id, status, now), id, status, later) == ApplyStatus(rows, id, status, now)
  {
  }

  /** After `updateStatus(id, s)` the ticket is still found, now with status `s`: a second call succeeds too. */
  lemma UpdatedTicketIsFoundWithNewStatus(rows: seq<TicketRow>, id: TicketId, status: SupportTicketStatus, now: int)
    requires FindRow(rows, id).Some?
    ensures var found := FindRow(ApplyStatus(rows, id, status, now), id);
      found.Some? && found.value.status == status
  {
    var r := ApplyStatus(rows, id, status, now);
    var k :| 0 <= k < |rows| && rows[k] == FindRow(rows, id).value;
    assert r[k] in r && r[k].id == id;
    var found := FindRow(r, id).value;
    var j :| 0 <= j < |r| && r[j] == found;
  }

  /** A status update keeps every row written by intake well formed. */
  lemma ApplyStatusKeepsWellFormed(rows: seq<TicketRow>, id: TicketId, status: SupportTicketStatus, now: int)
    requires AllWellFormed(rows)
    ensures AllWellFormed(ApplyStatus(rows, id, status, now))
  {
    var r := ApplyStatus(rows, id, status, now);
    forall t | t in r ensures TicketWellFormed(t) {
      var k :| 0 <= k < |r| && r[k] == t;
      assert rows[k] in rows;
    }
  }

  /** A decimal numeral: digits only, at least one, and no leading zero unless it is "0". */
  predicate IsDecimal(s: string) {
    && |s| >= 1
    && (forall k :: 0 <= k < |s| ==> '0' <= s[k] <= '9')
    && (s[0] == '0' ==> |s| == 1)
  }

  /** The value of a string of decimal digits. */
  function DecimalValue(s: string): nat
    requires forall k :: 0 <= k < |s| ==> '0' <= s[k] <= '9'
  {
    if s == [] then 0 else DecimalValue(s[..|s| - 1]) * 10 + (s[|s| - 1] as int - '0' as int)
  }

  /** Renders an id for the not-found message, in decimal. */
  function NatToString(n: nat): (s: string)
    ensures IsDecimal(s) && DecimalValue(s) == n
    ensures s[0] == '0' <==> n == 0
    decreases n
  {
    var digit := ['0' + (n % 10) as char];
    if n < 10 then digit
    else
      var prefix := NatToString(n / 10);
      assert (prefix + digit)[..|prefix|] == prefix;
      prefix + digit
  }

  /** The text of `TicketNotFoundException`: the fixed words around the id, written in decimal. */
  function TicketNotFoundMessage(id: TicketId): (m: string)
    ensures |m| > 25 && m[..15] == "Ticket with id " && m[|m| - 10..] == " not found"
    ensures IsDecimal(m[15..|m| - 10]) && DecimalValue(m[15..|m| - 10]) == id
  {
    var digits := NatToString(id);
    var m := "Ticket with id " + digits + " not found";
    assert m[15..|m| - 10] == digits;
    m
  }

  /**
   * `updateStatus`: load, set the status, map the entity to its view, and let the commit
   * flush the change; the view therefore carries the `updatedAt` from before the flush.
   */
  method UpdateStatus(repo: SupportTicketRepository, ticketId: TicketId, status: SupportTicketStatus, now: int)
    returns (r: Result<SupportTicketResponse>)
    requires repo.Valid()
    modifies repo`rows
    ensures repo.Valid()
    ensures FindRow(old(repo.rows), ticketId).None? ==>
      r == Err(Error(TicketNotFound, TicketNotFoundMessage(ticketId))) && repo.rows == old(repo.rows)
    ensures FindRow(old(repo.rows), ticketId).Some? ==>
      && r == Ok(ToDto(FindRow(old(repo.rows), ticketId).value.(status := status)))
      && repo.rows == ApplyStatus(old(repo.rows), ticketId, status, now)
    ensures AllWellFormed(old(repo.rows)) ==> AllWellFormed(repo.rows)
  {
    var ticket := repo.FindById(ticketId);
    if ticket == null {
      return Err(Error(TicketNotFound, TicketNotFoundMessage(ticketId)));
    }
    ghost var stored := ticket.Row();
    ticket.status := Some(status);
    r := Ok(ToDto(ticket.Row()));
    assert FitsColumns(ticket.Row()) by {
      assert stored in repo.rows;
    }
    ghost var before := repo.rows;
    repo.Flush(ticket, now);
    assert forall k :: 0 <= k < |before| && before[k].id == ticketId ==> before[k] == stored by {
      forall k | 0 <= k < |before| && before[k].id == ticketId ensures before[k] == stored {
        RowWithIdIsFound(before, k);
      }
    }
    if AllWellFormed(before) {
      ApplyStatusKeepsWellFormed(before, ticketId, status, now);
    }
  }

  /** Two consecutive `updateStatus(id, s)` calls both succeed and leave the status at `s`. */
  method UpdateStatusTwice(repo: SupportTicketRepository, ticketId: TicketId, status: SupportTicketStatus, now: int, later: int)
    returns (first: Result<SupportTicketResponse>, second: Result<SupportTicketResponse>)
    requires repo.Valid() && FindRow(repo.rows, ticketId).Some?
    modifies repo`rows
    ensures first.Ok? && second.Ok? && first.value.status == status && second.value.status == status
    ensures repo.rows == ApplyStatus(old(repo.rows), ticketId, status, now)
  {
    first := UpdateStatus(repo, ticketId, status, now);
    UpdatedTicketIsFoundWithNewStatus(old(repo.rows), ticketId, status, now);
    ApplyStatusIdempotent(old(repo.rows), ticketId, status, now, later);
    second := UpdateStatus(repo, ticketId, status, later);
  }
}
