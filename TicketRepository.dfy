/** The tickets table: lookup, the status query, page slicing, and the save and flush paths. */
module TicketRepository {
  import opened Wrappers
  import opened Domain
  import opened TicketEntity

  predicate RowIdsDistinct(rows: seq<TicketRow>) {
    forall i, j :: 0 <= i < |rows| && 0 <= j < |rows| && rows[i].id == rows[j].id ==> i == j
  }

  /** `findById`: the row with the id, if any. */
  function FindRow(rows: seq<TicketRow>, id: TicketId): (r: Option<TicketRow>)
    ensures r.Some? ==> r.value in rows && r.value.id == id
    ensures r.None? <==> forall t :: t in rows ==> t.id != id
  {
    if rows == [] then None
    else if rows[0].id == id then Some(rows[0])
    else FindRow(rows[1..], id)
  }

  /** With distinct ids, the lookup finds the one row that carries the id. */
  lemma RowWithIdIsFound(rows: seq<TicketRow>, k: int)
    requires RowIdsDistinct(rows) && 0 <= k < |rows|
    ensures FindRow(rows, rows[k].id) == Some(rows[k])
  {
    var r := FindRow(rows, rows[k].id);
    var j :| 0 <= j < |rows| && rows[j] == r.value;
  }

  /** `findAllByStatus`: the rows of one status, in store order. */
  function FindAllByStatus(rows: seq<TicketRow>, status: SupportTicketStatus): (r: seq<TicketRow>)
    ensures forall t :: multiset(r)[t] == if t.status == status then multiset(rows)[t] else 0
    ensures forall t :: t in r <==> t in rows && t.status == status
  {
    if rows == [] then []
    else
      assert rows == [rows[0]] + rows[1..];
      if rows[0].status == status then [rows[0]] + FindAllByStatus(rows[1..], status)
      else FindAllByStatus(rows[1..], status)
  }

  /** A page request: a zero-based page number and a positive page size. */
  type PageSize = n: nat | 1 <= n witness 1
  datatype PageRequest = PageRequest(number: nat, size: PageSize)

  /** Page `number` is the contiguous slice starting at `number * size`, at most `size` long. */
  function PageOf<T>(s: seq<T>, page: PageRequest): (r: seq<T>)
    ensures |r| <= page.size
    ensures PageStart(page) < |s| ==> |r| == Min(page.size, |s| - PageStart(page))
    ensures PageStart(page) >= |s| ==> r == []
    ensures forall i :: 0 <= i < |r| ==> r[i] == s[PageStart(page) + i]
  {
    var start := PageStart(page);
    if start >= |s| then [] else s[start..Min(|s|, start + page.size)]
  }

  /** The offset of a page's first element. */
  function PageStart(page: PageRequest): nat {
    page.number * page.size
  }

  /** Entry `j` of a page is element `PageStart(page) + j` of the paged sequence, when that exists. */
  lemma PageEntry<T>(s: seq<T>, page: PageRequest, j: nat)
    requires j < page.size && PageStart(page) + j < |s|
    ensures j < |PageOf(s, page)| && PageOf(s, page)[j] == s[PageStart(page) + j]
  {
  }

  /** Every element of a page is an element of the paged sequence. */
  lemma PageElementIsFromSource<T>(s: seq<T>, page: PageRequest, i: int)
    requires 0 <= i < |PageOf(s, page)|
    ensures PageOf(s, page)[i] in s
  {
    assert PageOf(s, page)[i] == s[PageStart(page) + i];
  }

  function Min(a: int, b: int): int {
    if a <= b then a else b
  }

  /** The first `n` pages, one after another. */
  function Pages<T>(s: seq<T>, size: PageSize, n: nat): seq<T> {
    if n == 0 then [] else Pages(s, size, n - 1) + PageOf(s, PageRequest(n - 1, size))
  }

  /**
    Reading pages 0 to n-1 in turn yields exactly the first n * size elements (the start of
    page n): none is skipped or repeated.
  */
  lemma {:induction false} PagesCover<T>(s: seq<T>, size: PageSize, n: nat)
    ensures Pages(s, size, n) == s[..Min(|s|, PageStart(PageRequest(n, size)))]
  {
    if n > 0 {
      PagesCover(s, size, n - 1);
      NextPageStart(n, size);
      PrefixThenPage(s, PageStart(PageRequest(n - 1, size)), PageStart(PageRequest(n, size)),
                     PageOf(s, PageRequest(n - 1, size)));
    }
  }

  /** A page that starts where a prefix ends extends that prefix up to the page's end. */
  lemma PrefixThenPage<T>(s: seq<T>, start: nat, end: nat, page: seq<T>)
    requires start <= end
    requires start >= |s| ==> page == []
    requires start < |s| ==> |page| == Min(end - start, |s| - start)
    requires forall i :: 0 <= i < |page| ==> page[i] == s[start + i]
    ensures s[..Min(|s|, start)] + page == s[..Min(|s|, end)]
  {
    if start < |s| {
      assert page == s[start..Min(|s|, end)];
    }
  }

  lemma NextPageStart(n: nat, size: PageSize)
    requires n > 0
    ensures PageStart(PageRequest(n, size)) == PageStart(PageRequest(n - 1, size)) + size
  {
  }

  /** The store with the row of `row.id` replaced by `row`. */
  function ReplaceRow(rows: seq<TicketRow>, row: TicketRow): (r: seq<TicketRow>)
    ensures |r| == |rows|
    ensures forall k :: 0 <= k < |rows| ==> r[k].id == rows[k].id
    ensures (exists q :: q in rows && q.id == row.id) ==> row in r
    ensures forall x :: x in rows && x.id != row.id ==> x in r
    ensures forall x :: x in r ==> x == row || (x in rows && x.id != row.id)
  {
    seq(|rows|, k requires 0 <= k < |rows| => if rows[k].id == row.id then row else rows[k])
  }

  /** An in-memory tickets table; `nextId` stands in for the UUID generator. */
  class SupportTicketRepository {
    var rows: seq<TicketRow>
    var nextId: TicketId

    /** Ids are distinct and issued, and every stored comment fits its column. */
    ghost predicate Valid()
      reads this
    {
      && RowIdsDistinct(rows)
      && (forall t :: t in rows ==> t.id < nextId && FitsColumns(t))
    }

    constructor()
      ensures Valid() && rows == [] && nextId == 0
    {
      rows := [];
      nextId := 0;
    }

    /** `save` of a new entity: assign an id, run `prePersist`, insert the row. */
    method Persist(t: SupportTicket, now: int)
      requires Valid()
      requires t.id.None? && t.userId.Some? && t.role.Some? && t.issueType.Some? && t.status.Some?
      requires t.comment.None? || |t.comment.value| <= CommentColumnLength
      modifies this, t`id, t`createdAt, t`updatedAt
      ensures Valid() && t.Complete()
      ensures t.id == Some(old(nextId)) && FindRow(old(rows), old(nextId)).None?
      ensures t.createdAt == if old(t.createdAt).None? then Some(now) else old(t.createdAt)
      ensures t.updatedAt == if old(t.updatedAt).None? then Some(now) else old(t.updatedAt)
      ensures rows == old(rows) + [t.Row()]
      ensures t.Row() == TicketRow(old(nextId), old(t.userId.value), old(t.role.value), old(t.issueType.value),
                                   old(t.selectedIssue), old(t.comment), old(t.status.value),
                                   t.createdAt.value, t.updatedAt.value)
    {
      t.id := Some(nextId);
      nextId := nextId + 1;
      t.PrePersist(now);
      rows := rows + [t.Row()];
    }

    /** `findById`: a fresh managed entity loaded from the row, or null. */
    method FindById(id: TicketId) returns (t: SupportTicket?)
      ensures (t == null) <==> FindRow(rows, id).None?
      ensures t != null ==> fresh(t) && t.Complete() && t.Row() == FindRow(rows, id).value
    {
      var row := FindRow(rows, id);
      if row.None? {
        return null;
      }
      t := new SupportTicket.FromRow(row.value);
    }

    /**
     * The commit-time flush of a managed entity: when it differs from its stored row,
     * `preUpdate` runs and the row is written; `createdAt` is not updatable.
     */
    method Flush(t: SupportTicket, now: int)
      requires Valid() && t.Complete() && FindRow(rows, t.id.value).Some?
      requires FitsColumns(t.Row())
      modifies this`rows, t`updatedAt
      ensures Valid() && t.Complete()
      ensures var stored := FindRow(old(rows), t.id.value).value;
        if old(t.Row()) == stored then
          rows == old(rows) && t.updatedAt == old(t.updatedAt)
        else
          && t.updatedAt == Some(now)
          && rows == ReplaceRow(old(rows), t.Row().(createdAt := stored.createdAt))
    {
      var stored := FindRow(rows, t.id.value).value;
      if t.Row() != stored {
        t.PreUpdate(now);
        var row := t.Row().(createdAt := stored.createdAt);
        assert FitsColumns(row);
        rows := ReplaceRow(rows, row);
        assert forall x :: x in rows ==> x == row || x in old(rows) by {
          forall x | x in rows ensures x == row || x in old(rows) {
            var k :| 0 <= k < |rows| && rows[k] == x;
          }
        }
      }
    }
  }
}
