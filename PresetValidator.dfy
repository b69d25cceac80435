/** Normalisation and per-role uniqueness of preset text. */
module PresetValidator {
  import opened Wrappers
  import opened Domain
  import opened JavaStrings
  import opened PresetRepository

  const MaxTextLength := 255

  const TextRequired := "Text is required"
  const TextBlank := "Text must not be blank"
  const TextTooLong := "Text length must be <= 255"
  const DuplicateText := "Preset with same text already exists for this role"

  /** The texts normalisation can produce: trimmed, not blank, at most 255 UTF-16 units. */
  predicate IsNormalizedText(t: string) {
    Trim(t) == t && !IsBlank(t) && Utf16Length(t) <= MaxTextLength
  }

  /** `normalizeTextOrThrow`. */
  function NormalizeTextOrThrow(text: Option<string>): (r: Result<string>)
    ensures text.None? ==> r == Err(Invalid(TextRequired))
    ensures text.Some? && IsBlank(Trim(text.value)) ==> r == Err(Invalid(TextBlank))
    ensures text.Some? && !IsBlank(Trim(text.value)) && Utf16Length(Trim(text.value)) > MaxTextLength
      ==> r == Err(Invalid(TextTooLong))
    ensures text.Some? && !IsBlank(Trim(text.value)) && Utf16Length(Trim(text.value)) <= MaxTextLength
      ==> r == Ok(Trim(text.value))
    ensures r.Ok? ==> r.value == Trim(text.value) && 1 <= |r.value| && Utf16Length(r.value) <= MaxTextLength
    ensures r.Ok? ==> IsNormalizedText(r.value)
  {
    if text.None? then Err(Invalid(TextRequired))
    else
      var normalized := Trim(text.value);
      if IsBlank(normalized) then Err(Invalid(TextBlank))
      else if Utf16Length(normalized) > MaxTextLength then Err(Invalid(TextTooLong))
      else
        TrimIdempotent(text.value);
        Ok(normalized)
  }

  /** Normalisation accepts a text unchanged exactly when it is already normalised. */
  lemma NormalizedTextIsFixedPoint(t: string)
    ensures NormalizeTextOrThrow(Some(t)) == Ok(t) <==> IsNormalizedText(t)
  {
  }

  /** Normalising a normalised text returns it unchanged. */
  lemma NormalizeTextIdempotent(text: Option<string>)
    requires NormalizeTextOrThrow(text).Ok?
    ensures NormalizeTextOrThrow(Some(NormalizeTextOrThrow(text).value)) == NormalizeTextOrThrow(text)
  {
    NormalizedTextIsFixedPoint(NormalizeTextOrThrow(text).value);
  }

  /** `ensureUniqueOnCreate(role, text)`. */
  function EnsureUniqueOnCreate(s: seq<SupportIssuePreset>, role: UserRole, text: string): (r: Outcome)
    ensures r.Fail? <==> exists p :: p in s && p.role == role && EqualsIgnoreCase(p.text, text)
    ensures r.Fail? ==> r.error == Invalid(DuplicateText)
  {
    if ExistsByRoleAndTextIgnoreCase(s, role, text) then Fail(Invalid(DuplicateText)) else Pass
  }

  /** `ensureUniqueOnUpdate(existing, newText)`: the store is consulted only when the text changes. */
  function EnsureUniqueOnUpdate(s: seq<SupportIssuePreset>, existing: SupportIssuePreset, newText: string): (r: Outcome)
    ensures EqualsIgnoreCase(existing.text, newText) ==> r == Pass
    ensures r.Fail? <==>
      && !EqualsIgnoreCase(existing.text, newText)
      && exists p :: p in s && p.role == existing.role && EqualsIgnoreCase(p.text, newText)
    ensures r.Fail? ==> r.error == Invalid(DuplicateText)
  {
    if !EqualsIgnoreCase(existing.text, newText)
      && ExistsByRoleAndTextIgnoreCase(s, existing.role, newText)
    then Fail(Invalid(DuplicateText))
    else Pass
  }
}
