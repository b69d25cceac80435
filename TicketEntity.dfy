/** The ticket entity, its stored row, and its two timestamp hooks. */
module TicketEntity {
  import opened Wrappers
  import opened Domain

  /** The database column bound on `comment`. */
  const CommentColumnLength := 500

  /** One row of the tickets table; `selectedIssueId` is the nullable preset reference. */
  datatype TicketRow = TicketRow(
    id: TicketId,
    userId: UserId,
    role: UserRole,
    issueType: SupportIssueType,
    selectedIssueId: Option<PresetId>,
    comment: Option<string>,
    status: SupportTicketStatus,
    createdAt: int,
    updatedAt: int)

  /** The comment fits its column. */
  predicate FitsColumns(row: TicketRow) {
    row.comment.None? || |row.comment.value| <= CommentColumnLength
  }

  /** The in-memory entity: every field starts unset, as after the no-argument constructor. */
  class SupportTicket {
    var id: Option<TicketId>
    var userId: Option<UserId>
    var role: Option<UserRole>
    var issueType: Option<SupportIssueType>
    var selectedIssue: Option<PresetId>
    var comment: Option<string>
    var status: Option<SupportTicketStatus>
    var createdAt: Option<int>
    var updatedAt: Option<int>

    constructor()
      ensures id.None? && userId.None? && role.None? && issueType.None? && selectedIssue.None?
      ensures comment.None? && status.None? && createdAt.None? && updatedAt.None?
    {
      id, userId, role, issueType, selectedIssue := None, None, None, None, None;
      comment, status, createdAt, updatedAt := None, None, None, None;
    }

    /** The entity the persistence layer materialises from a stored row. */
    constructor FromRow(row: TicketRow)
      ensures Complete() && Row() == row
    {
      id, userId, role, issueType := Some(row.id), Some(row.userId), Some(row.role), Some(row.issueType);
      selectedIssue, comment, status := row.selectedIssueId, row.comment, Some(row.status);
      createdAt, updatedAt := Some(row.createdAt), Some(row.updatedAt);
    }

    /** Every non-nullable column is set. */
    predicate Complete()
      reads this
    {
      id.Some? && userId.Some? && role.Some? && issueType.Some? && status.Some?
      && createdAt.Some? && updatedAt.Some?
    }

    /** The row this entity is written as. */
    function Row(): TicketRow
      reads this
      requires Complete()
    {
      TicketRow(id.value, userId.value, role.value, issueType.value, selectedIssue, comment,
                status.value, createdAt.value, updatedAt.value)
    }

    /** `prePersist`: fills each timestamp with `now` only when it is still unset. */
    method PrePersist(now: int)
      modifies this`createdAt, this`updatedAt
      ensures createdAt == if old(createdAt).None? then Some(now) else old(createdAt)
      ensures updatedAt == if old(updatedAt).None? then Some(now) else old(updatedAt)
      ensures createdAt.Some? && updatedAt.Some?
    {
      if createdAt.None? {
        createdAt := Some(now);
      }
      if updatedAt.None? {
        updatedAt := Some(now);
      }
    }

    /** `preUpdate`: refreshes `updatedAt`; `createdAt` is outside its frame. */
    method PreUpdate(now: int)
      modifies this`updatedAt
      ensures updatedAt == Some(now)
    {
      updatedAt := Some(now);
    }
  }
}
