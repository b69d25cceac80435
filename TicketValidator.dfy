/** The rules a ticket submission must satisfy before anything is saved. */
module TicketValidator {
  import opened Wrappers
  import opened Domain
  import opened JavaStrings
  import opened PresetRepository
  import opened IssuePresetService

  const MaxCommentLength := 500

  const SuperAdminForbidden := "Super Admin cannot create support tickets"
  const PresetMissing := "Preset not found"
  const PresetUnavailable := "Preset is not available for this role"
  const CommentRequired := "Either selectedIssueId or comment is required"
  const CommentTooLong := "Comment length must be <= 500"

  /** `validateRoleAllowed`: only SUPER_ADMIN is refused. */
  function ValidateRoleAllowed(role: UserRole): (r: Outcome)
    ensures r.Fail? <==> role == SUPER_ADMIN
    ensures r.Fail? ==> r.error == Invalid(SuperAdminForbidden)
  {
    if role == SUPER_ADMIN then Fail(Invalid(SuperAdminForbidden)) else Pass
  }

  /** `validatePresetOrThrow`: the stored preset, if it is active and meant for the caller's role. */
  function ValidatePresetOrThrow(s: seq<SupportIssuePreset>, presetId: PresetId, role: UserRole): (r: Result<SupportIssuePreset>)
    ensures (forall p :: p in s ==> p.id != presetId) ==> r == Err(Invalid(PresetMissing))
    ensures r.Ok? ==> r.value in s && r.value.id == presetId && r.value.active && r.value.role == role
    ensures r.Err? ==> r.error in {Invalid(PresetMissing), Invalid(PresetUnavailable)}
    ensures IdsDistinct(s) ==>
      forall p :: p in s && p.id == presetId ==>
        r == if p.active && p.role == role then Ok(p) else Err(Invalid(PresetUnavailable))
  {
    match FindSelectedIssueId(s, presetId)
    case None => Err(Invalid(PresetMissing))
    case Some(preset) =>
      if !preset.active || preset.role != role then Err(Invalid(PresetUnavailable))
      else Ok(preset)
  }

  /** `normalizeCommentOrThrow`: the comment a CUSTOM ticket requires. */
  function NormalizeCommentOrThrow(comment: Option<string>): (r: Result<string>)
    ensures comment.None? ==> r == Err(Invalid(CommentRequired))
    ensures comment.Some? && IsBlank(Trim(comment.value)) ==> r == Err(Invalid(CommentRequired))
    ensures comment.Some? && !IsBlank(Trim(comment.value)) && Utf16Length(Trim(comment.value)) > MaxCommentLength
      ==> r == Err(Invalid(CommentTooLong))
    ensures comment.Some? && !IsBlank(Trim(comment.value)) && Utf16Length(Trim(comment.value)) <= MaxCommentLength
      ==> r == Ok(Trim(comment.value))
    ensures r.Ok? ==>
      r.value == Trim(comment.value) && !IsBlank(r.value) && 1 <= |r.value| && Utf16Length(r.value) <= MaxCommentLength
  {
    if comment.None? then Err(Invalid(CommentRequired))
    else
      var normalized := Trim(comment.value);
      if IsBlank(normalized) then Err(Invalid(CommentRequired))
      else if Utf16Length(normalized) > MaxCommentLength then Err(Invalid(CommentTooLong))
      else Ok(normalized)
  }

  /** `normalizeOptionalComment`: the note a PRESET ticket may carry; empty means none. */
  function NormalizeOptionalComment(comment: Option<string>): (r: Result<Option<string>>)
    ensures comment.None? ==> r == Ok(None)
    ensures comment.Some? && Trim(comment.value) == [] ==> r == Ok(None)
    ensures comment.Some? && Utf16Length(Trim(comment.value)) > MaxCommentLength ==> r == Err(Invalid(CommentTooLong))
    ensures comment.Some? && Trim(comment.value) != [] && Utf16Length(Trim(comment.value)) <= MaxCommentLength
      ==> r == Ok(Some(Trim(comment.value)))
    ensures r.Err? ==> r.error == Invalid(CommentTooLong)
    ensures r.Ok? && r.value.Some? ==>
      r.value.value == Trim(comment.value) && 1 <= |r.value.value| && Utf16Length(r.value.value) <= MaxCommentLength
  {
    if comment.None? then Ok(None)
    else
      var normalized := Trim(comment.value);
      if |normalized| == 0 then Ok(None)
      else if Utf16Length(normalized) > MaxCommentLength then Err(Invalid(CommentTooLong))
      else Ok(Some(normalized))
  }

  /** Normalising an accepted comment again returns it unchanged. */
  lemma NormalizeCommentIdempotent(comment: Option<string>)
    requires NormalizeCommentOrThrow(comment).Ok?
    ensures NormalizeCommentOrThrow(Some(NormalizeCommentOrThrow(comment).value)) == NormalizeCommentOrThrow(comment)
  {
    TrimIdempotent(comment.value);
  }

  /** Normalising an accepted optional note again returns it unchanged. */
  lemma NormalizeOptionalCommentIdempotent(comment: Option<string>)
    requires NormalizeOptionalComment(comment).Ok?
    ensures NormalizeOptionalComment(NormalizeOptionalComment(comment).value) == NormalizeOptionalComment(comment)
  {
    if comment.Some? {
      TrimIdempotent(comment.value);
    }
  }

  /** For a comment that is already trimmed and not blank, 500 UTF-16 units pass and 501 do not. */
  lemma CommentLengthBoundary(c: string)
    requires Trim(c) == c && !IsBlank(c)
    ensures NormalizeCommentOrThrow(Some(c)).Ok? <==> Utf16Length(c) <= MaxCommentLength
    ensures NormalizeOptionalComment(Some(c)).Ok? <==> Utf16Length(c) <= MaxCommentLength
  {
    assert c != [];
    if Utf16Length(c) <= MaxCommentLength {
      assert NormalizeCommentOrThrow(Some(c)) == Ok(c);
      assert NormalizeOptionalComment(Some(c)) == Ok(Some(c));
    } else {
      assert NormalizeCommentOrThrow(Some(c)) == Err(Invalid(CommentTooLong));
      assert NormalizeOptionalComment(Some(c)) == Err(Invalid(CommentTooLong));
    }
  }

  /**
    A comment of characters above U+FFFF (emoji, say) counts two units per character, so
    251 to 500 of them are refused as too long by both normalisers.
  */
  lemma SupplementaryCharactersCountTwice(c: string)
    requires 250 < |c| <= MaxCommentLength
    requires forall k :: 0 <= k < |c| ==> c[k] >= '\U{10000}'
    ensures NormalizeCommentOrThrow(Some(c)) == Err(Invalid(CommentTooLong))
    ensures NormalizeOptionalComment(Some(c)) == Err(Invalid(CommentTooLong))
  {
    Utf16LengthOfUniformText(c);
    assert !Trimmable(c[0]) && !Trimmable(c[|c| - 1]);
    TrimOfTrimmed(c);
    assert !IsWhitespace(c[0]);
  }

  /**
    The two normalisers disagree on a comment that survives `trim` but is all whitespace:
    the required path (`isBlank`) refuses it, the optional path (`isEmpty`) keeps it.
  */
  lemma IdeographicSpaceDividesTheNormalisers()
    ensures NormalizeCommentOrThrow(Some("\U{3000}")) == Err(Invalid(CommentRequired))
    ensures NormalizeOptionalComment(Some("\U{3000}")) == Ok(Some("\U{3000}"))
  {
    TrimOfTrimmed("\U{3000}");
  }
}
