# Support service: preset catalog and ticket intake, modelled in Dafny

The model covers the business core of a Spring support-ticket service. It has four parts:

- **Preset catalog.** Preset issue texts are kept per user role. The catalog supports create, partial update, delete and two listings, and keeps one invariant: within a role, no two presets have texts that are equal ignoring case.
- **Caller's presets.** A user sees the active presets of their own role, ordered by `sortOrder`.
- **Ticket intake.** `createTicket` turns down `SUPER_ADMIN`. It then takes one of two branches:
  - PRESET: an active preset of the caller's role, plus an optional note;
  - CUSTOM: a required comment, non-blank and at most 500 UTF-16 units after trimming.

  It then saves exactly one `NEW` ticket.
- **Ticket administration.** A paged listing, optionally filtered by status, and an unrestricted status update.

The Java string operations the validators rely on are written out in `JavaStrings`:

- `trim` removes characters `<= ' '` from both ends;
- `isBlank` means every character satisfies `Character.isWhitespace`;
- `equalsIgnoreCase` is equality under a per-character case fold;
- `length()` counts UTF-16 code units, so a character above U+FFFF counts twice against the 255 and 500 caps.

## Modules

| module | models |
|---|---|
| `Wrappers` | `Option`, `Result`, `Outcome`, and the exception kinds as `Error` values |
| `JavaStrings` | `trim`, `isBlank` and `equalsIgnoreCase` as the validators use them |
| `Domain` | the enumerations, the preset record, and the alphabetical order of role names |
| `PresetRepository` | the derived query methods, and a class that holds the stored presets |
| `PresetValidator` | text normalisation and the two uniqueness checks |
| `IssuePresetService` | the preset lookup and the caller's active presets |
| `TicketValidator` | the role, preset and comment checks |
| `PresetAdminService` | create, update, delete and list, and the catalog invariant |
| `TicketEntity` | the ticket entity class, its stored row, and the `prePersist`/`preUpdate` hooks |
| `TicketRepository` | the tickets table, the status query, pages, and the save and flush paths |
| `TicketService` | `createTicket` |
| `TicketAdminService` | `listTickets` and `updateStatus` |

How the model is built:

- The validators and queries are functions. Each one returns `Result` or `Outcome`; an `Err` stands for a thrown exception and carries the exception's exact message.
- The repositories are classes whose methods change a `seq` field.
- The ticket entity is a class whose setters are field assignments.
- The two service flows that build and save step by step (`createTicket`, `updateStatus`) and the three catalog mutations are methods. Each is proved against a function or an invariant.
- The caller's identity `(userId, role)` and the clock (`now`) are parameters.
- Generated UUIDs are stood in for by a counter in each repository.

## Model

| member | source | states |
|---|---|---|
| `JavaStrings.TrimStart` | src/main/java/uz/consortgroup/support_service/validator/SupportPresetValidator.java:19 | the result is a suffix of the input; every dropped character is `<= ' '`; the result is empty or starts above `' '` |
| `JavaStrings.TrimEnd` | src/main/java/uz/consortgroup/support_service/validator/SupportPresetValidator.java:19 | the mirror image of `TrimStart` at the other end |
| `JavaStrings.Trim` | src/main/java/uz/consortgroup/support_service/validator/SupportTicketValidator.java:45 | the result is no longer than the input; it is empty or has no trimmable character at either end; it is empty exactly when every character is trimmable |
| `JavaStrings.TrimIsInfix` | src/main/java/uz/consortgroup/support_service/validator/SupportTicketValidator.java:45 | `trim` returns the infix between a trimmable prefix and a trimmable suffix; with the end characters from `Trim`, both runs are maximal |
| `JavaStrings.TrimOfTrimmed` | src/main/java/uz/consortgroup/support_service/validator/SupportTicketValidator.java:45 | trimming a string with no trimmable character at either end returns that string |
| `JavaStrings.TrimIdempotent` | src/main/java/uz/consortgroup/support_service/validator/SupportTicketValidator.java:59 | `trim(trim(s)) == trim(s)` |
| `JavaStrings.WhitespaceAgainstTrim` | src/main/java/uz/consortgroup/support_service/validator/SupportPresetValidator.java:19-20 | `Character.isWhitespace` excludes the no-break spaces U+00A0, U+2007 and U+202F; space, tab, CR and LF are both whitespace and trimmable; whitespace that `trim` cannot remove lies between U+1680 and U+3000 |
| `JavaStrings.BlankStaysBlankWhenTrimmed` | src/main/java/uz/consortgroup/support_service/validator/SupportTicketValidator.java:45-46 | a blank string is still blank after `trim` |
| `JavaStrings.ControlCharacterIsBlankOnlyAfterTrim` | src/main/java/uz/consortgroup/support_service/validator/SupportPresetValidator.java:19-20 | the converse fails: U+0000 is not blank, but its trim is, so `trim().isBlank()` refuses it |
| `JavaStrings.Utf16Length` | src/main/java/uz/consortgroup/support_service/validator/SupportPresetValidator.java:23 | `length()` counts UTF-16 units: at least one and at most two per character |
| `JavaStrings.Utf16LengthOfCharacter` | src/main/java/uz/consortgroup/support_service/validator/SupportPresetValidator.java:23 | one character counts one unit below U+10000 and two above |
| `JavaStrings.Utf16LengthOfConcat` | src/main/java/uz/consortgroup/support_service/validator/SupportPresetValidator.java:23 | the length of a concatenation is the sum of the lengths; with the one-character lemma this fixes `length()` for every text |
| `JavaStrings.Utf16LengthOfMixedText` | src/main/java/uz/consortgroup/support_service/validator/SupportTicketValidator.java:50 | "a" followed by an emoji counts three units |
| `JavaStrings.Utf16LengthOfUniformText` | src/main/java/uz/consortgroup/support_service/validator/SupportTicketValidator.java:50 | text below U+10000 counts one unit per character; text made only of characters above U+FFFF counts two |
| `JavaStrings.EqualsIgnoreCaseIsEquivalence` | src/main/java/uz/consortgroup/support_service/validator/SupportPresetValidator.java:36 | `equalsIgnoreCase` is reflexive, symmetric and transitive, and relates strings of equal length only |
| `JavaStrings.CaseIsIgnored` | src/main/java/uz/consortgroup/support_service/repository/SupportIssuePresetRepository.java:13 | `"Dup"` and `"DUP"` differ but are equal ignoring case |
| `JavaStrings.Fold` | src/main/java/uz/consortgroup/support_service/validator/SupportPresetValidator.java:36 | case folding keeps the length, so two strings equal ignoring case have the same length |
| `Domain.NameRankOrdersNames` | src/main/java/uz/consortgroup/support_service/entity/SupportIssuePreset.java:33-35 | the rank used to sort roles orders two roles exactly as the alphabetical order of their stored names does (`ADMIN < HR < MENTOR < STUDENT < SUPER_ADMIN`) |
| `PresetRepository.FindById` | src/main/java/uz/consortgroup/support_service/service/SupportIssuePresetServiceImpl.java:27 | a found preset is stored and has the id; nothing is found exactly when no stored preset has the id |
| `PresetRepository.FindByIdUnique` | src/main/java/uz/consortgroup/support_service/service/SupportIssuePresetServiceImpl.java:27 | with distinct ids, the lookup returns the one preset that has the id |
| `PresetRepository.ExistsByRoleAndTextIgnoreCase` | src/main/java/uz/consortgroup/support_service/repository/SupportIssuePresetRepository.java:13 | true exactly when some stored preset has the role and a text equal ignoring case |
| `PresetRepository.Select` | src/main/java/uz/consortgroup/support_service/repository/SupportIssuePresetRepository.java:14-15 | each preset keeps its stored multiplicity if the WHERE clause admits it, and is absent otherwise |
| `PresetRepository.Insert` | src/main/java/uz/consortgroup/support_service/repository/SupportIssuePresetRepository.java:14-16 | inserting into a sorted sequence keeps it sorted and adds exactly that element |
| `PresetRepository.SortBy` | src/main/java/uz/consortgroup/support_service/repository/SupportIssuePresetRepository.java:14-16 | the ORDER BY result is sorted and is a permutation of its input |
| `PresetRepository.FindAllByRoleAndActiveTrueOrderBySortOrderAsc` | src/main/java/uz/consortgroup/support_service/repository/SupportIssuePresetRepository.java:14 | sorted by sortOrder; holds exactly the active presets of the role, each as often as it is stored |
| `PresetRepository.FindAllByRoleOrderBySortOrderAsc` | src/main/java/uz/consortgroup/support_service/repository/SupportIssuePresetRepository.java:15 | sorted by sortOrder; holds exactly the presets of the role, inactive ones included, each as often as it is stored |
| `PresetRepository.FindAllByOrderByRoleAscSortOrderAsc` | src/main/java/uz/consortgroup/support_service/repository/SupportIssuePresetRepository.java:16 | sorted by role name and then sortOrder; a permutation of the whole store |
| `PresetRepository.ReplaceById` | src/main/java/uz/consortgroup/support_service/service/super_admin/SupportPresetSuperAdminServiceImpl.java:65 | the store keeps its length and the id at each position; `p` is stored when its id was; every preset of another id stays; nothing else appears |
| `PresetRepository.RemoveById` | src/main/java/uz/consortgroup/support_service/service/super_admin/SupportPresetSuperAdminServiceImpl.java:76 | exactly the presets with the id are removed; every other preset keeps its multiplicity |
| `PresetRepository.RemoveByIdKeepsIdsDistinct` | src/main/java/uz/consortgroup/support_service/service/super_admin/SupportPresetSuperAdminServiceImpl.java:76 | deleting keeps the remaining ids distinct |
| `PresetRepository.RemoveByIdRemovesOne` | src/main/java/uz/consortgroup/support_service/service/super_admin/SupportPresetSuperAdminServiceImpl.java:73-76 | with distinct ids, deleting an existing id removes exactly one preset |
| `PresetRepository.SupportIssuePresetRepository.constructor` | src/main/java/uz/consortgroup/support_service/repository/SupportIssuePresetRepository.java:12 | the store starts empty and valid |
| `PresetRepository.SupportIssuePresetRepository.Persist` | src/main/java/uz/consortgroup/support_service/service/super_admin/SupportPresetSuperAdminServiceImpl.java:42 | `save` of a new preset appends it under an id not used before and keeps ids distinct |
| `PresetRepository.SupportIssuePresetRepository.Merge` | src/main/java/uz/consortgroup/support_service/service/super_admin/SupportPresetSuperAdminServiceImpl.java:65 | `save` of an existing preset replaces the stored preset of that id |
| `PresetRepository.SupportIssuePresetRepository.DeleteById` | src/main/java/uz/consortgroup/support_service/service/super_admin/SupportPresetSuperAdminServiceImpl.java:76 | `deleteById` removes the presets with that id |
| `PresetValidator.NormalizeTextOrThrow` | src/main/java/uz/consortgroup/support_service/validator/SupportPresetValidator.java:15-27 | gives "Text is required" for null, "Text must not be blank" for a blank trim, and "Text length must be <= 255" when the trim is over 255 UTF-16 units; every other text is accepted as its trim, which is normalised |
| `PresetValidator.NormalizedTextIsFixedPoint` | src/main/java/uz/consortgroup/support_service/validator/SupportPresetValidator.java:15-27 | a text comes back unchanged exactly when it is already trimmed, not blank and at most 255 long |
| `PresetValidator.NormalizeTextIdempotent` | src/main/java/uz/consortgroup/support_service/validator/SupportPresetValidator.java:15-27 | normalising an accepted text again gives the same result |
| `PresetValidator.EnsureUniqueOnCreate` | src/main/java/uz/consortgroup/support_service/validator/SupportPresetValidator.java:29-33 | fails, with the duplicate message, exactly when a preset of the role has the text ignoring case |
| `PresetValidator.EnsureUniqueOnUpdate` | src/main/java/uz/consortgroup/support_service/validator/SupportPresetValidator.java:35-40 | passes when the new text equals the old one ignoring case; otherwise fails exactly when another preset of the role has the new text |
| `IssuePresetService.FindSelectedIssueId` | src/main/java/uz/consortgroup/support_service/service/SupportIssuePresetServiceImpl.java:25-28 | returns the stored preset of the id, or nothing when no preset has it |
| `IssuePresetService.GetActivePresetsForCurrentUserRole` | src/main/java/uz/consortgroup/support_service/service/SupportIssuePresetServiceImpl.java:31-41 | one `{id, text}` per element of the active-by-role query, in the query's ascending-sortOrder order |
| `IssuePresetService.ActivePresetsAreOfRole` | src/main/java/uz/consortgroup/support_service/service/SupportIssuePresetServiceImpl.java:34-39 | every entry shown is `{id, text}` of an active preset of the caller's role |
| `IssuePresetService.ActivePresetsOfRoleAreShown` | src/main/java/uz/consortgroup/support_service/service/SupportIssuePresetServiceImpl.java:34-39 | every active preset of the caller's role is shown |
| `IssuePresetService.NoActivePresetsShowsNothing` | src/main/java/uz/consortgroup/support_service/service/SupportIssuePresetServiceImpl.java:34-40 | a role with no active preset sees an empty list |
| `TicketValidator.ValidateRoleAllowed` | src/main/java/uz/consortgroup/support_service/validator/SupportTicketValidator.java:18-23 | fails exactly for `SUPER_ADMIN`, with "Super Admin cannot create support tickets" |
| `TicketValidator.ValidatePresetOrThrow` | src/main/java/uz/consortgroup/support_service/validator/SupportTicketValidator.java:25-38 | an unknown id gives "Preset not found"; a stored preset is returned exactly when it is active and of the caller's role, and otherwise gives "Preset is not available for this role" |
| `TicketValidator.NormalizeCommentOrThrow` | src/main/java/uz/consortgroup/support_service/validator/SupportTicketValidator.java:40-55 | null or blank gives "Either selectedIssueId or comment is required"; a trim over 500 UTF-16 units gives "Comment length must be <= 500"; every other comment is accepted as its trim |
| `TicketValidator.NormalizeOptionalComment` | src/main/java/uz/consortgroup/support_service/validator/SupportTicketValidator.java:57-66 | null or an empty trim gives no comment; a trim over 500 UTF-16 units gives the length error; every other comment gives its trim |
| `TicketValidator.NormalizeCommentIdempotent` | src/main/java/uz/consortgroup/support_service/validator/SupportTicketValidator.java:45-54 | running the required normaliser on its own output gives the same result |
| `TicketValidator.NormalizeOptionalCommentIdempotent` | src/main/java/uz/consortgroup/support_service/validator/SupportTicketValidator.java:59-65 | running the optional normaliser on its own output gives the same result |
| `TicketValidator.CommentLengthBoundary` | src/main/java/uz/consortgroup/support_service/validator/SupportTicketValidator.java:50-54 | for a trimmed, non-blank comment both normalisers accept it exactly when it is at most 500 UTF-16 units (500 pass, 501 fail) |
| `TicketValidator.SupplementaryCharactersCountTwice` | src/main/java/uz/consortgroup/support_service/validator/SupportTicketValidator.java:50-54 | a comment of 251 to 500 characters above U+FFFF is refused as too long by both normalisers |
| `TicketValidator.IdeographicSpaceDividesTheNormalisers` | src/main/java/uz/consortgroup/support_service/validator/SupportTicketValidator.java:46-60 | U+3000 survives `trim` and is blank, so the required path refuses it while the optional path keeps it as a comment |
| `PresetAdminService.AppendKeepsCatalogInvariant` | src/main/java/uz/consortgroup/support_service/service/super_admin/SupportPresetSuperAdminServiceImpl.java:32-42 | adding a normalised text that passed the create check keeps texts unique per role |
| `PresetAdminService.ReplaceKeepsCatalogInvariant` | src/main/java/uz/consortgroup/support_service/service/super_admin/SupportPresetSuperAdminServiceImpl.java:53-65 | replacing a preset after the update check passed keeps texts unique per role |
| `PresetAdminService.RemoveKeepsCatalogInvariant` | src/main/java/uz/consortgroup/support_service/service/super_admin/SupportPresetSuperAdminServiceImpl.java:76 | deleting keeps texts unique per role |
| `PresetAdminService.ApplyUpdate` | src/main/java/uz/consortgroup/support_service/service/super_admin/SupportPresetSuperAdminServiceImpl.java:53-63 | an update keeps id and role; a supplied text, sortOrder or active takes the supplied value, and every field the request leaves null keeps its value |
| `PresetAdminService.EditPreset` | src/main/java/uz/consortgroup/support_service/service/super_admin/SupportPresetSuperAdminServiceImpl.java:53-63 | with no new text only sortOrder and active change; otherwise a bad text gives the text error, a text taken by another preset of the role gives the duplicate error, and an accepted text is stored normalised |
| `PresetAdminService.EditKeepsCatalogInvariant` | src/main/java/uz/consortgroup/support_service/service/super_admin/SupportPresetSuperAdminServiceImpl.java:53-65 | writing back an accepted edit keeps texts normalised and unique per role |
| `PresetAdminService.Create` | src/main/java/uz/consortgroup/support_service/service/super_admin/SupportPresetSuperAdminServiceImpl.java:31-45 | text checks first, then uniqueness; on success exactly one preset is appended, with sortOrder defaulting to 0 and active to true; on failure nothing is written; the catalog invariant is kept |
| `PresetAdminService.Update` | src/main/java/uz/consortgroup/support_service/service/super_admin/SupportPresetSuperAdminServiceImpl.java:49-68 | an unknown id gives "Preset not found"; an absent text is neither checked nor changed; a given text is normalised and checked against the role; on failure nothing is written; the catalog invariant is kept |
| `PresetAdminService.Delete` | src/main/java/uz/consortgroup/support_service/service/super_admin/SupportPresetSuperAdminServiceImpl.java:72-78 | fails with "Preset not found" exactly for an unknown id, writing nothing; otherwise removes exactly one preset; the catalog invariant is kept |
| `PresetAdminService.List` | src/main/java/uz/consortgroup/support_service/service/super_admin/SupportPresetSuperAdminServiceImpl.java:82-88 | one response per element of the chosen query, in the same order |
| `PresetAdminService.ListOfRoleIsSortedAndOfRole` | src/main/java/uz/consortgroup/support_service/service/super_admin/SupportPresetSuperAdminServiceImpl.java:85 | `list(r)` shows only role-`r` presets, by ascending sortOrder |
| `PresetAdminService.ListOfRoleShowsEvery` | src/main/java/uz/consortgroup/support_service/service/super_admin/SupportPresetSuperAdminServiceImpl.java:85 | `list(r)` shows every role-`r` preset, inactive ones included |
| `PresetAdminService.ListOfRoleCount` | src/main/java/uz/consortgroup/support_service/service/super_admin/SupportPresetSuperAdminServiceImpl.java:85 | `list(r)` has as many entries as there are stored presets of `r` |
| `PresetAdminService.ListAllIsEveryPreset` | src/main/java/uz/consortgroup/support_service/service/super_admin/SupportPresetSuperAdminServiceImpl.java:84 | `list(null)` has one entry per stored preset and shows every one |
| `PresetAdminService.ListAllIsByRoleThenSortOrder` | src/main/java/uz/consortgroup/support_service/service/super_admin/SupportPresetSuperAdminServiceImpl.java:84 | in `list(null)` an earlier entry has an alphabetically smaller role name, or the same role and a sortOrder no larger |
| `PresetAdminService.ListShowsOnlyStoredPresets` | src/main/java/uz/consortgroup/support_service/service/super_admin/SupportPresetSuperAdminServiceImpl.java:82-88 | every listed entry is the response of a stored preset |
| `PresetAdminService.CreateSameTextTwice` | src/main/java/uz/consortgroup/support_service/validator/SupportPresetValidator.java:29-33 | creating the same normalised text twice for one role: the first succeeds with id 0 and the defaults, the second is refused as a duplicate, and one preset is stored |
| `PresetAdminService.CreateDuplicateTwice` | src/main/java/uz/consortgroup/support_service/validator/SupportPresetValidator.java:29-33 | creating `{HR, "Dup"}` twice: the first succeeds with the defaults, the second is refused as a duplicate, and one preset is stored |
| `PresetAdminService.CreateBlankText` | src/main/java/uz/consortgroup/support_service/validator/SupportPresetValidator.java:19-22 | creating with text `"  "` is refused as blank, and nothing is stored |
| `TicketEntity.SupportTicket.constructor` | src/main/java/uz/consortgroup/support_service/entity/SupportTicket.java:29 | a new entity has every field unset |
| `TicketEntity.SupportTicket.FromRow` | src/main/java/uz/consortgroup/support_service/entity/SupportTicket.java:36-66 | an entity loaded from a row has every column of that row |
| `TicketEntity.SupportTicket.PrePersist` | src/main/java/uz/consortgroup/support_service/entity/SupportTicket.java:68-73 | each timestamp is set to now only when unset, and both are set afterwards |
| `TicketEntity.SupportTicket.PreUpdate` | src/main/java/uz/consortgroup/support_service/entity/SupportTicket.java:75-78 | `updatedAt` becomes now; `createdAt` is outside what it may change |
| `TicketRepository.FindRow` | src/main/java/uz/consortgroup/support_service/service/super_admin/SupportTicketSuperAdminServiceImpl.java:39-40 | a found row is stored and has the id; nothing is found exactly when no row has the id |
| `TicketRepository.RowWithIdIsFound` | src/main/java/uz/consortgroup/support_service/service/super_admin/SupportTicketSuperAdminServiceImpl.java:39 | with distinct ids, the lookup returns the one row that has the id |
| `TicketRepository.FindAllByStatus` | src/main/java/uz/consortgroup/support_service/repository/SupportTicketRepository.java:12 | holds exactly the rows of the status, each as often as it is stored |
| `TicketRepository.PageOf` | src/main/java/uz/consortgroup/support_service/service/super_admin/SupportTicketSuperAdminServiceImpl.java:30-31 | a page is the contiguous slice starting at `number * size` (`PageStart`), at most `size` long, and empty past the end |
| `TicketRepository.PageEntry` | src/main/java/uz/consortgroup/support_service/service/super_admin/SupportTicketSuperAdminServiceImpl.java:30-31 | entry `j` of a page is element `number * size + j` of the source whenever that element exists |
| `TicketRepository.PageElementIsFromSource` | src/main/java/uz/consortgroup/support_service/service/super_admin/SupportTicketSuperAdminServiceImpl.java:30-31 | every element of a page is an element of the paged sequence |
| `TicketRepository.PagesCover` | src/main/java/uz/consortgroup/support_service/service/super_admin/SupportTicketSuperAdminServiceImpl.java:30-31 | reading pages 0 to n-1 in turn gives exactly the first `n * size` elements, with none skipped or repeated |
| `TicketRepository.ReplaceRow` | src/main/java/uz/consortgroup/support_service/service/super_admin/SupportTicketSuperAdminServiceImpl.java:44 | the table keeps its length and the id at each position; the new row is stored when its id was; every row of another id stays; nothing else appears |
| `TicketRepository.SupportTicketRepository.constructor` | src/main/java/uz/consortgroup/support_service/repository/SupportTicketRepository.java:11 | the table starts empty and valid |
| `TicketRepository.SupportTicketRepository.Persist` | src/main/java/uz/consortgroup/support_service/service/SupportTicketServiceImpl.java:63 | `save` of a new entity gives it an unused id, runs `prePersist` and appends its row, which carries the entity's fields as set before the call; stored comments stay within the 500-character column |
| `TicketRepository.SupportTicketRepository.FindById` | src/main/java/uz/consortgroup/support_service/service/super_admin/SupportTicketSuperAdminServiceImpl.java:39 | returns a fresh entity equal to the stored row, or null exactly when no row has the id |
| `TicketRepository.SupportTicketRepository.Flush` | src/main/java/uz/consortgroup/support_service/entity/SupportTicket.java:62-78 | an unchanged entity writes nothing; a changed one runs `preUpdate` and is written with its stored `createdAt` |
| `TicketService.Intake` | src/main/java/uz/consortgroup/support_service/service/SupportTicketServiceImpl.java:39-61 | checks the role before the preset and before the comment; `SUPER_ADMIN` always fails; a preset id makes a PRESET ticket whose preset is active and of the caller's role; no id makes a CUSTOM ticket with the required comment; every draft is well formed |
| `TicketService.BuildTicket` | src/main/java/uz/consortgroup/support_service/service/SupportTicketServiceImpl.java:39-61 | fails exactly when intake fails, with the same error; otherwise a fresh unsaved entity of the caller, status NEW, carrying the draft's type, preset and comment |
| `TicketService.CreateTicket` | src/main/java/uz/consortgroup/support_service/service/SupportTicketServiceImpl.java:32-72 | on failure nothing is written; on success exactly one ticket is appended, with the caller's id and role, status NEW and both timestamps now, and the answer is SUCCESS with the acknowledgement; every stored ticket stays well formed |
| `TicketService.AcknowledgementIsNotBlank` | src/main/java/uz/consortgroup/support_service/service/SupportTicketServiceImpl.java:68-71 | the success message is not blank |
| `TicketService.CustomCommentLengthBoundary` | src/main/java/uz/consortgroup/support_service/service/SupportTicketServiceImpl.java:56-58 | without a preset, a comment of 500 UTF-16 units is accepted and one of 501 is refused |
| `TicketService.NeitherPresetNorCommentFails` | src/main/java/uz/consortgroup/support_service/service/SupportTicketServiceImpl.java:56-57 | with neither a preset nor a usable comment, intake fails with "Either selectedIssueId or comment is required" |
| `TicketService.AvailablePresetYieldsPresetTicket` | src/main/java/uz/consortgroup/support_service/service/SupportTicketServiceImpl.java:47-53 | an active preset of the caller's role, with a comment whose trim is at most 500 UTF-16 units, always yields a PRESET ticket that references it, with the trimmed comment as note or none when the trim is empty |
| `TicketService.SeedPreset` | src/main/java/uz/consortgroup/support_service/service/super_admin/SupportPresetSuperAdminServiceImpl.java:31-45 | creating one normalised preset in an empty catalog stores exactly that preset, with id 0 |
| `TicketService.FileAgainstOnlyPreset` | src/main/java/uz/consortgroup/support_service/service/SupportTicketServiceImpl.java:47-63 | filing against the only preset of a fresh catalog, with a normalised note, stores one PRESET ticket pointing at preset 0, with that note, status NEW and both timestamps now |
| `TicketService.MentorFilesAgainstPreset` | src/main/java/uz/consortgroup/support_service/service/SupportTicketServiceImpl.java:47-53 | a MENTOR files against a fresh MENTOR preset `"Cannot save course"` with the note `"fails on save button"`: this stores one PRESET ticket with that note and status NEW |
| `TicketAdminService.ListTickets` | src/main/java/uz/consortgroup/support_service/service/super_admin/SupportTicketSuperAdminServiceImpl.java:28-34 | one view per element of the requested page of all tickets, or of the tickets of the status, in the same order |
| `TicketAdminService.ListedTicketsMatchTheFilter` | src/main/java/uz/consortgroup/support_service/service/super_admin/SupportTicketSuperAdminServiceImpl.java:30-31 | every listed ticket is stored, and has the requested status when one is given |
| `TicketAdminService.EveryTicketIsOnItsPage` | src/main/java/uz/consortgroup/support_service/service/super_admin/SupportTicketSuperAdminServiceImpl.java:28-34 | the ticket at position `n * size + j` of the listing (`j < size`) is entry `j` of page `n` |
| `TicketAdminService.SourceMatchesTheFilter` | src/main/java/uz/consortgroup/support_service/service/super_admin/SupportTicketSuperAdminServiceImpl.java:30-31 | the listing's source holds stored tickets only, of the requested status when one is given |
| `TicketAdminService.ApplyStatus` | src/main/java/uz/consortgroup/support_service/service/super_admin/SupportTicketSuperAdminServiceImpl.java:42-44 | other tickets are unchanged; the ticket with the id gets exactly the new status from any prior status, keeps its other fields, and gets `updatedAt` = now only if its status changed |
| `TicketAdminService.ApplyStatusIdempotent` | src/main/java/uz/consortgroup/support_service/service/super_admin/SupportTicketSuperAdminServiceImpl.java:42 | setting the same status twice leaves the table as setting it once |
| `TicketAdminService.UpdatedTicketIsFoundWithNewStatus` | src/main/java/uz/consortgroup/support_service/service/super_admin/SupportTicketSuperAdminServiceImpl.java:39-42 | after an update the ticket is still found, now with the new status, so a repeated call succeeds |
| `TicketAdminService.ApplyStatusKeepsWellFormed` | src/main/java/uz/consortgroup/support_service/service/super_admin/SupportTicketSuperAdminServiceImpl.java:42 | a status update keeps every ticket written by intake well formed |
| `TicketAdminService.UpdateStatus` | src/main/java/uz/consortgroup/support_service/service/super_admin/SupportTicketSuperAdminServiceImpl.java:38-47 | an unknown id gives "Ticket with id … not found" and writes nothing; otherwise the table becomes `ApplyStatus` of the old one, and the view is the stored ticket with the new status |
| `TicketAdminService.NatToString` | src/main/java/uz/consortgroup/support_service/service/super_admin/SupportTicketSuperAdminServiceImpl.java:40 | the id is written as a decimal numeral without leading zeros whose value is the id |
| `TicketAdminService.TicketNotFoundMessage` | src/main/java/uz/consortgroup/support_service/service/super_admin/SupportTicketSuperAdminServiceImpl.java:40 | the message is "Ticket with id ", then a decimal numeral whose value is the id, then " not found" |
| `TicketAdminService.UpdateStatusTwice` | src/main/java/uz/consortgroup/support_service/service/super_admin/SupportTicketSuperAdminServiceImpl.java:38-47 | two consecutive updates to the same status both succeed, both report that status, and leave the table as one update would |

## Left out

- Controllers, the security configuration, `AuthContext` and the exception handler are left out. The caller's `(userId, role)` is a parameter. The handler's mapping from exceptions to HTTP statuses is reduced to the exception kind in `ErrorKind`.
- Logging is left out, because it has no effect on results.
- Bean validation on the request DTOs is left out; the request classes live in a library outside this repository. A request's `role` is therefore always present, and so is the new status of `updateStatus`: with a null status the code would throw at `status.name()` (SupportTicketSuperAdminServiceImpl.java:43) before the save, and the model has no such case.
- The response DTO classes and the `TicketStatus` enum come from that library. They are modelled as copies of the entity fields, and `TicketStatus` has only the `SUCCESS` value intake uses. The MapStruct mapper is modelled as that copy, with `selectedIssue` shown as its id.
- UUID generation is replaced by a counter in each repository. `Instant.now()` is replaced by the `now` parameter.
- Transactions and concurrency are left out. Two concurrent creates of the same text can both pass the uniqueness check, so the catalog invariant is proved only for sequential calls. No database unique constraint is declared on the preset entity.
- Spring's `Pageable` sorting and the page metadata (total elements, total pages) are left out. `findAll` keeps insertion order, and a page is a contiguous slice of the filtered sequence.
- A preset is modelled as a value. `update` builds the changed value and writes it with `save`, so aliasing of the managed entity is not modelled.
- Lazy loading of `selectedIssue` is left out: a ticket stores the preset's id. What the database does when a referenced preset is deleted is left out.
- A comment over 500 characters on `save` is left out. The 500-character column is a precondition of `SupportTicketRepository.Persist`, and intake always meets it.
- `sortOrder` is a Java `Integer`, modelled as an unbounded `int`. The core does no arithmetic on it, so wrap-around cannot arise.
- `JavaStrings.Fold`: `equalsIgnoreCase` folds every Unicode letter, but the model folds only ASCII, Latin-1, Greek and Cyrillic capitals, one code point at a time. No proof about the services depends on which characters are folded; only `JavaStrings.CaseIsIgnored` does, through the folding of 'U' and 'P'.
- Trim: the function's own contract gives the bounds and the end characters only; that the result is the infix between maximal trimmable runs is the separate lemma `JavaStrings.TrimIsInfix`, so that the many contracts that mention `trim` do not all carry it.
- An id is a natural number, so `TicketNotFoundMessage` writes it in decimal where the code formats a UUID.

Behaviour of the code that a reader might not expect:

- A duplicate text throws `IllegalArgumentException`, which the handler answers with status 400, although the controller documents 409. So the model gives `IllegalArgument`; there is no separate conflict error.
- JPA calls `@PreUpdate` only when a flush finds a changed entity. So `updateStatus` to the status a ticket already has writes nothing and keeps `updatedAt`. Also, `updateStatus` builds its view before the commit-time flush, so the view carries the previous `updatedAt`.
- `normalizeOptionalComment` tests `isEmpty`, not `isBlank`. A preset ticket's note consisting only of, say, U+3000 is therefore kept.
