/** Ticket intake: the role check, the PRESET or CUSTOM branch, then exactly one save. */
module TicketService {
  import opened Wrappers
  import opened Domain
  import opened JavaStrings
  import opened PresetRepository
  import opened TicketValidator
  import opened TicketEntity
  import opened TicketRepository
  import PresetValidator
  import PresetAdminService

  datatype CreateTicketRequest = CreateTicketRequest(selectedIssueId: Option<PresetId>, comment: Option<string>)

  /** The acknowledgement's status; intake only ever answers SUCCESS. */
  datatype TicketStatus = SUCCESS

  datatype TicketCreatedResponse = TicketCreatedResponse(ticketStatus: TicketStatus, message: string)

  const Acknowledgement := "Заявка отправлена"

  /** What intake decides about a ticket before it is saved. */
  datatype TicketDraft = TicketDraft(
    issueType: SupportIssueType,
    selectedIssueId: Option<PresetId>,
    comment: Option<string>)

  /** A stored comment is trimmed, non-empty and within the cap of 500 UTF-16 units. */
  predicate NormalizedComment(c: string) {
    Trim(c) == c && 1 <= |c| && Utf16Length(c) <= MaxCommentLength
  }

  /** What every ticket written by intake satisfies, stated on the caller's role and the draft. */
  predicate DraftWellFormed(role: UserRole, d: TicketDraft) {
    && role != SUPER_ADMIN
    && (d.issueType == PRESET <==> d.selectedIssueId.Some?)
    && (d.issueType == CUSTOM ==> d.comment.Some? && !IsBlank(d.comment.value))
    && (d.comment.Some? ==> NormalizedComment(d.comment.value))
  }

  predicate TicketWellFormed(t: TicketRow) {
    DraftWellFormed(t.role, TicketDraft(t.issueType, t.selectedIssueId, t.comment))
  }

  /** A well-formed draft's comment fits the 500-character column. */
  lemma DraftCommentFitsColumn(role: UserRole, d: TicketDraft)
    requires DraftWellFormed(role, d)
    ensures d.comment.None? || |d.comment.value| <= CommentColumnLength
  {
  }

  /** The row `save` writes for a draft: status NEW and both timestamps `now`. */
  function NewTicketRow(id: TicketId, userId: UserId, role: UserRole, d: TicketDraft, now: int): TicketRow {
    TicketRow(id, userId, role, d.issueType, d.selectedIssueId, d.comment, NEW, now, now)
  }

  predicate AllWellFormed(rows: seq<TicketRow>) {
    forall t :: t in rows ==> TicketWellFormed(t)
  }

  lemma AppendKeepsWellFormed(rows: seq<TicketRow>, t: TicketRow)
    requires TicketWellFormed(t)
    ensures AllWellFormed(rows) ==> AllWellFormed(rows + [t])
  {
  }

  /** The decision `createTicket` takes for a caller of `role`: a draft, or the first failing check. */
  function Intake(presets: seq<SupportIssuePreset>, role: UserRole, req: CreateTicketRequest): (r: Result<TicketDraft>)
    ensures role == SUPER_ADMIN ==> r == Err(Invalid(SuperAdminForbidden))
    ensures role != SUPER_ADMIN && req.selectedIssueId.None? ==>
      var c := NormalizeCommentOrThrow(req.comment);
      && (r.Ok? <==> c.Ok?)
      && (r.Err? ==> r.error == c.error)
      && (r.Ok? ==> r.value == TicketDraft(CUSTOM, None, Some(c.value)))
    ensures role != SUPER_ADMIN && req.selectedIssueId.Some? ==>
      var v := ValidatePresetOrThrow(presets, req.selectedIssueId.value, role);
      var c := NormalizeOptionalComment(req.comment);
      && (r.Ok? <==> v.Ok? && c.Ok?)
      && (r.Err? ==> r.error == if v.Err? then v.error else c.error)
      && (r.Ok? ==> r.value == TicketDraft(PRESET, req.selectedIssueId, c.value))
    ensures r.Ok? && r.value.issueType == PRESET ==>
      exists p :: p in presets && Some(p.id) == r.value.selectedIssueId && p.active && p.role == role
    ensures r.Ok? ==> DraftWellFormed(role, r.value)
  {
    if role == SUPER_ADMIN then Err(ValidateRoleAllowed(role).error)
    else if req.selectedIssueId.Some? then
      match ValidatePresetOrThrow(presets, req.selectedIssueId.value, role)
      case Err(e) => Err(e)
      case Ok(preset) =>
        match NormalizeOptionalComment(req.comment)
        case Err(e) => Err(e)
        case Ok(note) =>
          if note.Some? then
            TrimIdempotent(req.comment.value);
            Ok(TicketDraft(PRESET, Some(preset.id), note))
          else
            Ok(TicketDraft(PRESET, Some(preset.id), note))
    else
      match NormalizeCommentOrThrow(req.comment)
      case Err(e) => Err(e)
      case Ok(normalized) =>
        TrimIdempotent(req.comment.value);
        Ok(TicketDraft(CUSTOM, None, Some(normalized)))
  }

  /** The first part of `createTicket`: the role check, then the new entity filled in through its setters. */
  method BuildTicket(catalog: SupportIssuePresetRepository, userId: UserId, role: UserRole, req: CreateTicketRequest)
    returns (r: Result<SupportTicket>)
    ensures var d := Intake(catalog.presets, role, req);
      && (r.Ok? <==> d.Ok?)
      && (r.Err? ==> r.error == d.error)
      && (r.Ok? ==>
            var t := r.value;
            && fresh(t)
            && t.id.None? && t.createdAt.None? && t.updatedAt.None?
            && t.userId == Some(userId) && t.role == Some(role) && t.status == Some(NEW)
            && t.issueType == Some(d.value.issueType)
            && t.selectedIssue == d.value.selectedIssueId
            && t.comment == d.value.comment)
  {
    var allowed := ValidateRoleAllowed(role);
    if allowed.Fail? {
      return Err(allowed.error);
    }
    var ticket := new SupportTicket();
    ticket.userId := Some(userId);
    ticket.role := Some(role);
    ticket.status := Some(NEW);
    if req.selectedIssueId.Some? {
      var preset := ValidatePresetOrThrow(catalog.presets, req.selectedIssueId.value, role);
      if preset.Err? {
        assert Intake(catalog.presets, role, req) == Err(preset.error);
        return Err(preset.error);
      }
      ticket.issueType := Some(PRESET);
      ticket.selectedIssue := Some(preset.value.id);
      var note := NormalizeOptionalComment(req.comment);
      if note.Err? {
        assert Intake(catalog.presets, role, req) == Err(note.error);
        return Err(note.error);
      }
      assert Intake(catalog.presets, role, req) == Ok(TicketDraft(PRESET, Some(preset.value.id), note.value));
      ticket.comment := note.value;
    } else {
      var normalized := NormalizeCommentOrThrow(req.comment);
      if normalized.Err? {
        assert Intake(catalog.presets, role, req) == Err(normalized.error);
        return Err(normalized.error);
      }
      assert Intake(catalog.presets, role, req) == Ok(TicketDraft(CUSTOM, None, Some(normalized.value)));
      ticket.issueType := Some(CUSTOM);
      ticket.comment := Some(normalized.value);
    }
    r := Ok(ticket);
  }

  /**
   * `createTicket`: builds the entity, then saves it. On any failure nothing is written;
   * on success exactly one NEW ticket of the caller is appended.
   */
  method CreateTicket(catalog: SupportIssuePresetRepository, repo: SupportTicketRepository,
                      userId: UserId, role: UserRole, req: CreateTicketRequest, now: int)
    returns (r: Result<TicketCreatedResponse>)
    requires repo.Valid()
    modifies repo
    ensures repo.Valid()
    ensures r.Ok? <==> Intake(catalog.presets, role, req).Ok?
    ensures r.Err? ==> r.error == Intake(catalog.presets, role, req).error && repo.rows == old(repo.rows)
    ensures r.Ok? ==>
      && r.value == TicketCreatedResponse(SUCCESS, Acknowledgement)
      && repo.rows == old(repo.rows) + [NewTicketRow(old(repo.nextId), userId, role, Intake(catalog.presets, role, req).value, now)]
    ensures AllWellFormed(old(repo.rows)) ==> AllWellFormed(repo.rows)
  {
    ghost var d := Intake(catalog.presets, role, req);
    var built := BuildTicket(catalog, userId, role, req);
    if built.Err? {
      return Err(built.error);
    }
    var ticket := built.value;
    ghost var row := NewTicketRow(repo.nextId, userId, role, d.value, now);
    assert TicketWellFormed(row);
    DraftCommentFitsColumn(role, d.value);
    ghost var before := repo.rows;
    repo.Persist(ticket, now);
    assert ticket.Row() == row;
    AppendKeepsWellFormed(before, row);
    r := Ok(TicketCreatedResponse(SUCCESS, Acknowledgement));
  }

  /** The acknowledgement message is not blank. */
  lemma AcknowledgementIsNotBlank()
    ensures |Acknowledgement| > 0 && !IsBlank(Acknowledgement)
  {
    assert !IsWhitespace(Acknowledgement[0]);
  }

  /** A CUSTOM comment is accepted at 500 UTF-16 units and refused at 501. */
  lemma CustomCommentLengthBoundary(presets: seq<SupportIssuePreset>, role: UserRole, c: string)
    requires role != SUPER_ADMIN && Trim(c) == c && !IsBlank(c)
    ensures Intake(presets, role, CreateTicketRequest(None, Some(c))).Ok? <==> Utf16Length(c) <= MaxCommentLength
  {
    CommentLengthBoundary(c);
  }

  /** Neither a preset nor a usable comment: intake fails with the "required" message. */
  lemma NeitherPresetNorCommentFails(presets: seq<SupportIssuePreset>, role: UserRole, comment: Option<string>)
    requires comment.None? || IsBlank(Trim(comment.value))
    ensures Intake(presets, role, CreateTicketRequest(None, comment)).Err?
    ensures role != SUPER_ADMIN ==>
      Intake(presets, role, CreateTicketRequest(None, comment)) == Err(Invalid(CommentRequired))
  {
  }

  /**
    A preset that is active and of the caller's role always yields a PRESET ticket, whatever
    comment of at most 500 UTF-16 units comes with it; the note is the trimmed comment, or
    none when nothing is left after trimming.
  */
  lemma AvailablePresetYieldsPresetTicket(presets: seq<SupportIssuePreset>, p: SupportIssuePreset, comment: Option<string>)
    requires IdsDistinct(presets) && p in presets && p.active && p.role != SUPER_ADMIN
    requires comment.None? || Utf16Length(Trim(comment.value)) <= MaxCommentLength
    ensures var r := Intake(presets, p.role, CreateTicketRequest(Some(p.id), comment));
      && r.Ok? && r.value.issueType == PRESET && r.value.selectedIssueId == Some(p.id)
      && r.value.comment == if comment.None? || Trim(comment.value) == [] then None else Some(Trim(comment.value))
  {
  }

  /** A fresh catalog after creating one active preset with an already normalised text. */
  method SeedPreset(role: UserRole, text: string, sortOrder: int) returns (catalog: SupportIssuePresetRepository)
    requires PresetValidator.IsNormalizedText(text)
    ensures fresh(catalog) && catalog.Valid()
    ensures catalog.presets == [SupportIssuePreset(0, role, text, sortOrder, true)]
  {
    catalog := new SupportIssuePresetRepository();
    PresetValidator.NormalizedTextIsFixedPoint(text);
    ghost var empty := catalog.presets;
    var preset := PresetAdminService.Create(catalog, PresetAdminService.CreatePresetRequest(role, Some(text), Some(sortOrder), Some(true)));
    assert preset.Ok?;
    assert catalog.presets == empty + [SupportIssuePreset(0, role, text, sortOrder, true)];
  }

  /** A caller files against the only preset of a fresh catalog with a normalised note. */
  method FileAgainstOnlyPreset(role: UserRole, text: string, sortOrder: int, userId: UserId, note: string, now: int)
    returns (stored: seq<TicketRow>)
    requires role != SUPER_ADMIN && PresetValidator.IsNormalizedText(text) && NormalizedComment(note)
    ensures |stored| == 1
    ensures stored[0] == TicketRow(0, userId, role, PRESET, Some(0), Some(note), NEW, now, now)
  {
    var catalog := SeedPreset(role, text, sortOrder);
    var p := catalog.presets[0];
    assert ValidatePresetOrThrow(catalog.presets, 0, role) == Ok(p) by {
      assert p in catalog.presets;
    }
    assert NormalizeOptionalComment(Some(note)) == Ok(Some(note));
    var repo := new SupportTicketRepository();
    var r := CreateTicket(catalog, repo, userId, role, CreateTicketRequest(Some(0), Some(note)), now);
    stored := repo.rows;
  }

  /** After `{MENTOR, "Cannot save course", 2, active}`, a MENTOR files against it with a note: one PRESET ticket, note kept, status NEW. */
  method MentorFilesAgainstPreset(userId: UserId, now: int) returns (stored: seq<TicketRow>)
    ensures |stored| == 1
    ensures stored[0].issueType == PRESET && stored[0].role == MENTOR && stored[0].userId == userId
    ensures stored[0].selectedIssueId == Some(0)
    ensures stored[0].comment == Some("fails on save button") && stored[0].status == NEW
  {
    MentorPresetTextIsNormalized();
    MentorNoteIsNormalized();
    stored := FileAgainstOnlyPreset(MENTOR, "Cannot save course", 2, userId, "fails on save button", now);
  }

  lemma MentorPresetTextIsNormalized()
    ensures PresetValidator.IsNormalizedText("Cannot save course")
  {
    TrimOfTrimmed("Cannot save course");
    assert !IsWhitespace("Cannot save course"[0]);
  }

  lemma MentorNoteIsNormalized()
    ensures NormalizedComment("fails on save button")
  {
    TrimOfTrimmed("fails on save button");
  }
}
