/** The administrative preset catalog: create, partial update, delete, list. */
module PresetAdminService {
  import opened Wrappers
  import opened Domain
  import opened JavaStrings
  import opened PresetRepository
  import opened PresetValidator

  datatype CreatePresetRequest = CreatePresetRequest(
    role: UserRole,
    text: Option<string>,
    sortOrder: Option<int>,
    active: Option<bool>)

  /** Every field is optional; an absent one is left as it is. */
  datatype UpdatePresetRequest = UpdatePresetRequest(
    text: Option<string>,
    sortOrder: Option<int>,
    active: Option<bool>)

  datatype PresetResponse = PresetResponse(
    id: PresetId,
    role: UserRole,
    text: string,
    sortOrder: int,
    active: bool)

  const PresetMissing := "Preset not found"

  /** `toPresetDto`: the mapper copies every column. */
  function ToPresetDto(p: SupportIssuePreset): PresetResponse {
    PresetResponse(p.id, p.role, p.text, p.sortOrder, p.active)
  }

  /** No two presets of the same role have texts that are equal ignoring case. */
  predicate UniqueTextPerRole(s: seq<SupportIssuePreset>) {
    forall p, q :: p in s && q in s && p.id != q.id && p.role == q.role ==> !EqualsIgnoreCase(p.text, q.text)
  }

  /** What the catalog keeps true: unique text per role, and every text normalised. */
  predicate CatalogInvariant(s: seq<SupportIssuePreset>) {
    && UniqueTextPerRole(s)
    && forall p :: p in s ==> IsNormalizedText(p.text)
  }

  /** Adding a preset whose normalised text is new for its role keeps the catalog invariant. */
  lemma AppendKeepsCatalogInvariant(s: seq<SupportIssuePreset>, p: SupportIssuePreset)
    requires CatalogInvariant(s) && IsNormalizedText(p.text)
    requires EnsureUniqueOnCreate(s, p.role, p.text) == Pass
    ensures CatalogInvariant(s + [p])
  {
    forall x, y | x in s + [p] && y in s + [p] && x.id != y.id && x.role == y.role
      ensures !EqualsIgnoreCase(x.text, y.text)
    {
      if x == p {
        assert y in s;
      } else if y == p {
        assert x in s;
      }
    }
    forall x | x in s + [p]
      ensures IsNormalizedText(x.text)
    {
      if x != p {
        assert x in s;
      }
    }
  }

  /** After a replacement, a preset is the new one or an untouched preset of another id. */
  lemma ReplaceByIdMembers(s: seq<SupportIssuePreset>, p: SupportIssuePreset, x: SupportIssuePreset)
    requires x in ReplaceById(s, p)
    ensures x == p || (x in s && x.id != p.id)
  {
    var r := ReplaceById(s, p);
    var k :| 0 <= k < |r| && r[k] == x;
    assert s[k] in s;
  }

  /** Replacing a preset by an edit that passed the update check keeps the catalog invariant. */
  lemma ReplaceKeepsCatalogInvariant(s: seq<SupportIssuePreset>, existing: SupportIssuePreset, p: SupportIssuePreset)
    requires CatalogInvariant(s) && existing in s
    requires p.id == existing.id && p.role == existing.role && IsNormalizedText(p.text)
    requires EnsureUniqueOnUpdate(s, existing, p.text) == Pass
    ensures CatalogInvariant(ReplaceById(s, p))
  {
    var r := ReplaceById(s, p);
    forall x | x in r ensures IsNormalizedText(x.text) {
      ReplaceByIdMembers(s, p, x);
    }
    forall x, y | x in r && y in r && x.id != y.id && x.role == y.role
      ensures !EqualsIgnoreCase(x.text, y.text)
    {
      ReplaceByIdMembers(s, p, x);
      ReplaceByIdMembers(s, p, y);
      if x == p || y == p {
        var q := if x == p then y else x;
        EditedTextIsUnique(s, existing, p, q);
      }
    }
  }

  /** The edited text clashes with no other preset of the role. */
  lemma EditedTextIsUnique(s: seq<SupportIssuePreset>, existing: SupportIssuePreset, p: SupportIssuePreset, q: SupportIssuePreset)
    requires UniqueTextPerRole(s) && existing in s && q in s
    requires p.id == existing.id && p.role == existing.role
    requires q.id != existing.id && q.role == existing.role
    requires EnsureUniqueOnUpdate(s, existing, p.text) == Pass
    ensures !EqualsIgnoreCase(q.text, p.text) && !EqualsIgnoreCase(p.text, q.text)
  {
    if EqualsIgnoreCase(existing.text, p.text) {
      assert !EqualsIgnoreCase(existing.text, q.text);
    }
  }

  /** Removing presets keeps the catalog invariant. */
  lemma RemoveKeepsCatalogInvariant(s: seq<SupportIssuePreset>, id: PresetId)
    requires CatalogInvariant(s)
    ensures CatalogInvariant(RemoveById(s, id))
  {
    var r := RemoveById(s, id);
    assert forall x :: x in r ==> x in s by {
      forall x | x in r ensures x in s {
        assert x in multiset(r);
      }
    }
  }

  /** The preset after a partial update: supplied fields replace, absent ones stay. */
  function ApplyUpdate(existing: SupportIssuePreset, newText: Option<string>, req: UpdatePresetRequest): (p: SupportIssuePreset)
    ensures p.id == existing.id && p.role == existing.role
    ensures newText.None? ==> p.text == existing.text
    ensures req.sortOrder.None? ==> p.sortOrder == existing.sortOrder
    ensures req.active.None? ==> p.active == existing.active
    ensures newText.Some? ==> p.text == newText.value
    ensures req.sortOrder.Some? ==> p.sortOrder == req.sortOrder.value
    ensures req.active.Some? ==> p.active == req.active.value
  {
    existing.(
      text := newText.GetOr(existing.text),
      sortOrder := req.sortOrder.GetOr(existing.sortOrder),
      active := req.active.GetOr(existing.active))
  }

  /** `create`: validate, then insert one preset with defaults sortOrder 0 and active true. */
  method Create(repo: SupportIssuePresetRepository, req: CreatePresetRequest) returns (r: Result<PresetResponse>)
    requires repo.Valid()
    modifies repo
    ensures repo.Valid()
    ensures var n := NormalizeTextOrThrow(req.text);
      && (n.Err? ==> r == Err(n.error))
      && (n.Ok? && EnsureUniqueOnCreate(old(repo.presets), req.role, n.value).Fail? ==>
            r == Err(Invalid(DuplicateText)))
      && (r.Ok? <==> n.Ok? && EnsureUniqueOnCreate(old(repo.presets), req.role, n.value) == Pass)
      && (r.Ok? ==>
            var p := SupportIssuePreset(old(repo.nextId), req.role, n.value,
                                        req.sortOrder.GetOr(0), req.active.GetOr(true));
            repo.presets == old(repo.presets) + [p] && r.value == ToPresetDto(p))
    ensures r.Err? ==> repo.presets == old(repo.presets)
    ensures CatalogInvariant(old(repo.presets)) ==> CatalogInvariant(repo.presets)
  {
    var normalized := NormalizeTextOrThrow(req.text);
    if normalized.Err? {
      return Err(normalized.error);
    }
    var text := normalized.value;
    var unique := EnsureUniqueOnCreate(repo.presets, req.role, text);
    if unique.Fail? {
      return Err(unique.error);
    }
    ghost var before := repo.presets;
    var saved := repo.Persist(req.role, text,
                              if req.sortOrder.None? then 0 else req.sortOrder.value,
                              req.active.None? || req.active.value);
    if CatalogInvariant(before) {
      AppendKeepsCatalogInvariant(before, saved);
    }
    r := Ok(ToPresetDto(saved));
  }

  /** The body of `update` once the preset is found: check a supplied text, then apply the setters in order. */
  method EditPreset(s: seq<SupportIssuePreset>, existing: SupportIssuePreset, req: UpdatePresetRequest)
    returns (r: Result<SupportIssuePreset>)
    ensures var n := NormalizeTextOrThrow(req.text);
      if req.text.None? then
        r == Ok(ApplyUpdate(existing, None, req))
      else if n.Err? then
        r == Err(n.error)
      else if EnsureUniqueOnUpdate(s, existing, n.value).Fail? then
        r == Err(Invalid(DuplicateText))
      else
        r == Ok(ApplyUpdate(existing, Some(n.value), req))
  {
    var preset := existing;
    if req.text.Some? {
      var normalized := NormalizeTextOrThrow(req.text);
      if normalized.Err? {
        return Err(normalized.error);
      }
      var newText := normalized.value;
      var unique := EnsureUniqueOnUpdate(s, preset, newText);
      if unique.Fail? {
        return Err(unique.error);
      }
      preset := preset.(text := newText);
    }
    if req.sortOrder.Some? {
      preset := preset.(sortOrder := req.sortOrder.value);
    }
    if req.active.Some? {
      preset := preset.(active := req.active.value);
    }
    r := Ok(preset);
  }

  /** An accepted edit keeps the catalog invariant when it is written back. */
  lemma EditKeepsCatalogInvariant(s: seq<SupportIssuePreset>, existing: SupportIssuePreset, req: UpdatePresetRequest, p: SupportIssuePreset)
    requires CatalogInvariant(s) && existing in s
    requires var n := NormalizeTextOrThrow(req.text);
      if req.text.None? then p == ApplyUpdate(existing, None, req)
      else n.Ok? && EnsureUniqueOnUpdate(s, existing, n.value) == Pass && p == ApplyUpdate(existing, Some(n.value), req)
    ensures CatalogInvariant(ReplaceById(s, p))
  {
    ReplaceKeepsCatalogInvariant(s, existing, p);
  }

  /** `update`: a partial update of an existing preset; an absent text is neither normalised nor checked. */
  method Update(repo: SupportIssuePresetRepository, id: PresetId, req: UpdatePresetRequest) returns (r: Result<PresetResponse>)
    requires repo.Valid()
    modifies repo`presets
    ensures repo.Valid()
    ensures FindById(old(repo.presets), id).None? ==> r == Err(Error(PresetNotFound, PresetMissing))
    ensures FindById(old(repo.presets), id).Some? ==>
      var existing := FindById(old(repo.presets), id).value;
      var n := NormalizeTextOrThrow(req.text);
      if req.text.None? then
        var p := ApplyUpdate(existing, None, req);
        r == Ok(ToPresetDto(p)) && repo.presets == ReplaceById(old(repo.presets), p)
      else if n.Err? then
        r == Err(n.error)
      else if EnsureUniqueOnUpdate(old(repo.presets), existing, n.value).Fail? then
        r == Err(Invalid(DuplicateText))
      else
        var p := ApplyUpdate(existing, Some(n.value), req);
        r == Ok(ToPresetDto(p)) && repo.presets == ReplaceById(old(repo.presets), p)
    ensures r.Err? ==> repo.presets == old(repo.presets)
    ensures CatalogInvariant(old(repo.presets)) ==> CatalogInvariant(repo.presets)
  {
    var found := FindById(repo.presets, id);
    if found.None? {
      return Err(Error(PresetNotFound, PresetMissing));
    }
    var edited := EditPreset(repo.presets, found.value, req);
    if edited.Err? {
      return Err(edited.error);
    }
    if CatalogInvariant(repo.presets) {
      EditKeepsCatalogInvariant(repo.presets, found.value, req, edited.value);
    }
    repo.Merge(edited.value);
    r := Ok(ToPresetDto(edited.value));
  }

  /** `delete`: not-found for a missing id, otherwise removes exactly that preset. */
  method Delete(repo: SupportIssuePresetRepository, id: PresetId) returns (r: Outcome)
    requires repo.Valid()
    modifies repo`presets
    ensures repo.Valid()
    ensures r.Fail? <==> FindById(old(repo.presets), id).None?
    ensures r.Fail? ==> r.error == Error(PresetNotFound, PresetMissing) && repo.presets == old(repo.presets)
    ensures r.Pass? ==>
      && repo.presets == RemoveById(old(repo.presets), id)
      && |repo.presets| == |old(repo.presets)| - 1
    ensures CatalogInvariant(old(repo.presets)) ==> CatalogInvariant(repo.presets)
  {
    if FindById(repo.presets, id).None? {
      return Fail(Error(PresetNotFound, PresetMissing));
    }
    RemoveByIdRemovesOne(repo.presets, id);
    if CatalogInvariant(repo.presets) {
      RemoveKeepsCatalogInvariant(repo.presets, id);
    }
    repo.DeleteById(id);
    r := Pass;
  }

  /** `list(role)`: the repository listing for the role (or for all roles), mapped to responses. */
  function List(s: seq<SupportIssuePreset>, role: Option<UserRole>): (r: seq<PresetResponse>)
    ensures var q := if role.None? then FindAllByOrderByRoleAscSortOrderAsc(s)
                     else FindAllByRoleOrderBySortOrderAsc(s, role.value);
      |r| == |q| && forall i :: 0 <= i < |r| ==> r[i] == ToPresetDto(q[i])
  {
    var q := if role.None? then FindAllByOrderByRoleAscSortOrderAsc(s)
             else FindAllByRoleOrderBySortOrderAsc(s, role.value);
    seq(|q|, i requires 0 <= i < |q| => ToPresetDto(q[i]))
  }

  /** `list(r)` shows only presets of `r`, by ascending sortOrder. */
  lemma ListOfRoleIsSortedAndOfRole(s: seq<SupportIssuePreset>, role: UserRole)
    ensures var r := List(s, Some(role));
      && (forall i :: 0 <= i < |r| ==> r[i].role == role)
      && (forall i, j :: 0 <= i < j < |r| ==> r[i].sortOrder <= r[j].sortOrder)
  {
    var r := List(s, Some(role));
    var q := FindAllByRoleOrderBySortOrderAsc(s, role);
    forall i | 0 <= i < |r| ensures r[i].role == role {
      assert q[i] in q;
    }
    forall i, j | 0 <= i < j < |r| ensures r[i].sortOrder <= r[j].sortOrder {
      assert InOrder(BySortOrder, q[i], q[j]);
    }
  }

  /** `list(r)` shows every preset of `r`, inactive ones included. */
  lemma ListOfRoleShowsEvery(s: seq<SupportIssuePreset>, role: UserRole, p: SupportIssuePreset)
    requires p in s && p.role == role
    ensures ToPresetDto(p) in List(s, Some(role))
  {
    var r := List(s, Some(role));
    var q := FindAllByRoleOrderBySortOrderAsc(s, role);
    assert p in q;
    var i :| 0 <= i < |q| && q[i] == p;
    assert r[i] == ToPresetDto(p);
  }

  /** `list(r)` has one entry per stored preset of `r`, duplicates counted. */
  lemma ListOfRoleCount(s: seq<SupportIssuePreset>, role: UserRole)
    ensures |List(s, Some(role))| == |Select(s, OfRole(role))|
  {
    var q := FindAllByRoleOrderBySortOrderAsc(s, role);
    var t := Select(s, OfRole(role));
    assert multiset(q) == multiset(t);
    assert |q| == |multiset(q)| == |multiset(t)| == |t|;
  }

  /** `list(null)` shows every preset once. */
  lemma ListAllIsEveryPreset(s: seq<SupportIssuePreset>)
    ensures var r := List(s, None);
      && |r| == |s|
      && (forall p :: p in s ==> ToPresetDto(p) in r)
  {
    var r := List(s, None);
    var q := FindAllByOrderByRoleAscSortOrderAsc(s);
    assert |q| == |multiset(q)| == |multiset(s)| == |s|;
    forall p | p in s ensures ToPresetDto(p) in r {
      assert p in multiset(q);
      var i :| 0 <= i < |q| && q[i] == p;
      assert r[i] == ToPresetDto(p);
    }
  }

  /** In `list(null)`, an earlier entry has an alphabetically smaller role name, or the same role and no larger sortOrder. */
  lemma ListAllIsByRoleThenSortOrder(s: seq<SupportIssuePreset>, i: int, j: int)
    requires 0 <= i < j < |List(s, None)|
    ensures var r := List(s, None);
      || LexLess(RoleName(r[i].role), RoleName(r[j].role))
      || (r[i].role == r[j].role && r[i].sortOrder <= r[j].sortOrder)
  {
    var q := FindAllByOrderByRoleAscSortOrderAsc(s);
    var a, b := q[i], q[j];
    assert InOrder(ByRoleThenSortOrder, a, b);
    NameRankOrdersNames(a.role, b.role);
    if NameRank(a.role) == NameRank(b.role) {
      assert a.role == b.role;
    }
  }

  /** Every entry of either listing is the response of a stored preset. */
  lemma ListShowsOnlyStoredPresets(s: seq<SupportIssuePreset>, role: Option<UserRole>, i: int)
    requires 0 <= i < |List(s, role)|
    ensures exists p :: p in s && List(s, role)[i] == ToPresetDto(p)
  {
    var q := if role.None? then FindAllByOrderByRoleAscSortOrderAsc(s)
             else FindAllByRoleOrderBySortOrderAsc(s, role.value);
    assert q[i] in multiset(q);
    assert q[i] in s;
  }

  /** The same normalised text created twice for one role: the second is refused, one preset is stored. */
  method CreateSameTextTwice(role: UserRole, text: string) returns (first: Result<PresetResponse>, second: Result<PresetResponse>, stored: nat)
    requires IsNormalizedText(text)
    ensures first == Ok(PresetResponse(0, role, text, 0, true))
    ensures second == Err(Invalid(DuplicateText))
    ensures stored == 1
  {
    var repo := new SupportIssuePresetRepository();
    NormalizedTextIsFixedPoint(text);
    first := Create(repo, CreatePresetRequest(role, Some(text), None, None));
    assert repo.presets[0] in repo.presets;
    second := Create(repo, CreatePresetRequest(role, Some(text), None, None));
    stored := |repo.presets|;
  }

  /** `{HR, "Dup"}` twice: the second is refused as a duplicate and one preset is stored. */
  method CreateDuplicateTwice() returns (first: Result<PresetResponse>, second: Result<PresetResponse>, stored: nat)
    ensures first.Ok? && first.value.text == "Dup" && first.value.sortOrder == 0 && first.value.active
    ensures second == Err(Invalid(DuplicateText))
    ensures stored == 1
  {
    DupIsNormalized();
    first, second, stored := CreateSameTextTwice(HR, "Dup");
  }

  lemma DupIsNormalized()
    ensures IsNormalizedText("Dup")
  {
    TrimOfTrimmed("Dup");
    assert !IsWhitespace("Dup"[0]);
  }

  /** A blank text is refused and nothing is stored. */
  method CreateBlankText() returns (r: Result<PresetResponse>, stored: nat)
    ensures r == Err(Invalid(TextBlank))
    ensures stored == 0
  {
    var repo := new SupportIssuePresetRepository();
    assert Trim("  ") == [];
    r := Create(repo, CreatePresetRequest(ADMIN, Some("  "), None, None));
    stored := |repo.presets|;
  }
}
