/** The end-user view of the preset catalog. */
module IssuePresetService {
  import opened Wrappers
  import opened Domain
  import opened PresetRepository

  /** What an end user sees of a preset. */
  datatype IssuePresetResponse = IssuePresetResponse(id: PresetId, text: string)

  /** `findSelectedIssueId`: the stored preset with that id, or none. */
  function FindSelectedIssueId(s: seq<SupportIssuePreset>, selectedIssueId: PresetId): (r: Option<SupportIssuePreset>)
    ensures r.Some? ==> r.value in s && r.value.id == selectedIssueId
    ensures r.None? <==> forall p :: p in s ==> p.id != selectedIssueId
    ensures IdsDistinct(s) ==> forall p :: p in s && p.id == selectedIssueId ==> r == Some(p)
  {
    var r := FindById(s, selectedIssueId);
    assert IdsDistinct(s) ==> forall p :: p in s && p.id == selectedIssueId ==> r == Some(p) by {
      if IdsDistinct(s) {
        forall p | p in s && p.id == selectedIssueId ensures r == Some(p) {
          FindByIdUnique(s, selectedIssueId, p);
        }
      }
    }
    r
  }

  /**
    `getActivePresetsForCurrentUserRole`, with the caller's role as a parameter:
    `(id, text)` of each active preset of the role, in the repository's order.
  */
  function GetActivePresetsForCurrentUserRole(s: seq<SupportIssuePreset>, role: UserRole): (r: seq<IssuePresetResponse>)
    ensures var q := FindAllByRoleAndActiveTrueOrderBySortOrderAsc(s, role);
      |r| == |q| && forall i :: 0 <= i < |r| ==> r[i] == IssuePresetResponse(q[i].id, q[i].text)
  {
    var q := FindAllByRoleAndActiveTrueOrderBySortOrderAsc(s, role);
    seq(|q|, i requires 0 <= i < |q| => IssuePresetResponse(q[i].id, q[i].text))
  }

  /** Every entry shown comes from an active preset of the caller's role. */
  lemma ActivePresetsAreOfRole(s: seq<SupportIssuePreset>, role: UserRole, i: int)
    requires 0 <= i < |GetActivePresetsForCurrentUserRole(s, role)|
    ensures exists p :: p in s && p.active && p.role == role
                        && GetActivePresetsForCurrentUserRole(s, role)[i] == IssuePresetResponse(p.id, p.text)
  {
    var q := FindAllByRoleAndActiveTrueOrderBySortOrderAsc(s, role);
    assert q[i] in q;
    assert GetActivePresetsForCurrentUserRole(s, role)[i] == IssuePresetResponse(q[i].id, q[i].text);
  }

  /** Every active preset of the caller's role is shown. */
  lemma ActivePresetsOfRoleAreShown(s: seq<SupportIssuePreset>, role: UserRole, p: SupportIssuePreset)
    requires p in s && p.active && p.role == role
    ensures IssuePresetResponse(p.id, p.text) in GetActivePresetsForCurrentUserRole(s, role)
  {
    var q := FindAllByRoleAndActiveTrueOrderBySortOrderAsc(s, role);
    assert p in q;
    var i :| 0 <= i < |q| && q[i] == p;
    assert GetActivePresetsForCurrentUserRole(s, role)[i] == IssuePresetResponse(p.id, p.text);
  }

  /** A role without active presets sees an empty list. */
  lemma NoActivePresetsShowsNothing(s: seq<SupportIssuePreset>, role: UserRole)
    requires forall p :: p in s ==> !(p.active && p.role == role)
    ensures GetActivePresetsForCurrentUserRole(s, role) == []
  {
    var q := FindAllByRoleAndActiveTrueOrderBySortOrderAsc(s, role);
    assert multiset(q) == multiset{};
  }
}
