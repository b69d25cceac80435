/** The enumerations of the service and the preset entity. */
module Domain {

  /** The platform's user roles. */
  datatype UserRole = ADMIN | MENTOR | HR | STUDENT | SUPER_ADMIN

  /** A ticket's triage state. */
  datatype SupportTicketStatus = NEW | IN_PROGRESS | CLOSED

  /** Whether a ticket was filed from a preset or as a free-form comment. */
  datatype SupportIssueType = PRESET | CUSTOM

  /** Natural numbers stand in for the generated UUIDs. */
  type PresetId = nat
  type TicketId = nat
  type UserId = nat

  /** A row of `support_issue_presets`. */
  datatype SupportIssuePreset = SupportIssuePreset(
    id: PresetId,
    role: UserRole,
    text: string,
    sortOrder: int,
    active: bool)

  /** The name under which the role column stores a role (`EnumType.STRING`). */
  function RoleName(r: UserRole): string {
    match r
    case ADMIN => "ADMIN"
    case MENTOR => "MENTOR"
    case HR => "HR"
    case STUDENT => "STUDENT"
    case SUPER_ADMIN => "SUPER_ADMIN"
  }

  /** Lexicographic order on strings, character by character. */
  predicate LexLess(a: string, b: string) {
    if a == [] then b != []
    else if b == [] then false
    else if a[0] != b[0] then a[0] < b[0]
    else LexLess(a[1..], b[1..])
  }

  /** No string precedes itself. */
  lemma {:induction false} LexLessIrreflexive(s: string)
    ensures !LexLess(s, s)
  {
    if s != [] {
      LexLessIrreflexive(s[1..]);
    }
  }

  /** Position of the role's name in alphabetical order, which is what `ORDER BY role` sorts by. */
  function NameRank(r: UserRole): nat {
    match r
    case ADMIN => 0
    case HR => 1
    case MENTOR => 2
    case STUDENT => 3
    case SUPER_ADMIN => 4
  }

  /** Ranking roles by NameRank is ordering their stored names alphabetically. */
  lemma NameRankOrdersNames(a: UserRole, b: UserRole)
    ensures NameRank(a) < NameRank(b) <==> LexLess(RoleName(a), RoleName(b))
  {
    if a == b {
      LexLessIrreflexive(RoleName(a));
    } else if a in {STUDENT, SUPER_ADMIN} && b in {STUDENT, SUPER_ADMIN} {
      assert RoleName(STUDENT)[1..] == "TUDENT";
      assert RoleName(SUPER_ADMIN)[1..] == "UPER_ADMIN";
    }
  }
}
