/**
  The preset store and the derived queries of its repository interface, as
  functions on the stored sequence of presets.
*/
module PresetRepository {
  import opened Wrappers
  import opened Domain
  import opened JavaStrings

  /** No two stored presets share an id. */
  predicate IdsDistinct(s: seq<SupportIssuePreset>) {
    forall i, j :: 0 <= i < |s| && 0 <= j < |s| && s[i].id == s[j].id ==> i == j
  }

  /** `findById`: the stored preset with that id, if there is one. */
  function FindById(s: seq<SupportIssuePreset>, id: PresetId): (r: Option<SupportIssuePreset>)
    ensures r.Some? ==> r.value in s && r.value.id == id
    ensures r.None? <==> forall p :: p in s ==> p.id != id
  {
    if s == [] then None
    else if s[0].id == id then Some(s[0])
    else FindById(s[1..], id)
  }

  /** With distinct ids, the preset `findById` returns is the only one with that id. */
  lemma FindByIdUnique(s: seq<SupportIssuePreset>, id: PresetId, p: SupportIssuePreset)
    requires IdsDistinct(s) && p in s && p.id == id
    ensures FindById(s, id) == Some(p)
  {
    var q := FindById(s, id).value;
    var i :| 0 <= i < |s| && s[i] == p;
    var j :| 0 <= j < |s| && s[j] == q;
  }

  /** `existsByRoleAndTextIgnoreCase(role, text)`. */
  function ExistsByRoleAndTextIgnoreCase(s: seq<SupportIssuePreset>, role: UserRole, text: string): (b: bool)
    ensures b <==> exists p :: p in s && p.role == role && EqualsIgnoreCase(p.text, text)
  {
    if s == [] then false
    else
      || (s[0].role == role && EqualsIgnoreCase(s[0].text, text))
      || ExistsByRoleAndTextIgnoreCase(s[1..], role, text)
  }

  /** The WHERE clauses of the listing queries. */
  datatype PresetFilter = AllPresets | OfRole(role: UserRole) | ActiveOfRole(role: UserRole)

  predicate Admits(f: PresetFilter, p: SupportIssuePreset) {
    match f
    case AllPresets => true
    case OfRole(r) => p.role == r
    case ActiveOfRole(r) => p.role == r && p.active
  }

  /** The stored presets a filter admits, each as often as it is stored. */
  function Select(s: seq<SupportIssuePreset>, f: PresetFilter): (r: seq<SupportIssuePreset>)
    ensures forall p :: multiset(r)[p] == if Admits(f, p) then multiset(s)[p] else 0
  {
    if s == [] then []
    else
      assert s == [s[0]] + s[1..];
      if Admits(f, s[0]) then [s[0]] + Select(s[1..], f) else Select(s[1..], f)
  }

  /** The ORDER BY clauses of the listing queries. */
  datatype PresetOrder = BySortOrder | ByRoleThenSortOrder

  /** `p` may come before `q` under the order. */
  predicate InOrder(o: PresetOrder, p: SupportIssuePreset, q: SupportIssuePreset) {
    match o
    case BySortOrder => p.sortOrder <= q.sortOrder
    case ByRoleThenSortOrder =>
      NameRank(p.role) < NameRank(q.role)
      || (NameRank(p.role) == NameRank(q.role) && p.sortOrder <= q.sortOrder)
  }

  predicate SortedBy(o: PresetOrder, s: seq<SupportIssuePreset>) {
    forall i, j :: 0 <= i < j < |s| ==> InOrder(o, s[i], s[j])
  }

  /** Inserts `x` before the first element it may precede. */
  function Insert(o: PresetOrder, x: SupportIssuePreset, s: seq<SupportIssuePreset>): (r: seq<SupportIssuePreset>)
    requires SortedBy(o, s)
    ensures SortedBy(o, r)
    ensures multiset(r) == multiset(s) + multiset{x}
  {
    if s == [] then [x]
    else if InOrder(o, x, s[0]) then [x] + s
    else
      assert s == [s[0]] + s[1..];
      var t := Insert(o, x, s[1..]);
      assert forall k :: 0 <= k < |t| ==> InOrder(o, s[0], t[k]) by {
        assert forall j :: 0 <= j < |s[1..]| ==> InOrder(o, s[0], s[1..][j]) by {
          forall j | 0 <= j < |s[1..]| ensures InOrder(o, s[0], s[1..][j]) {
            assert s[1..][j] == s[j + 1];
          }
        }
        forall k | 0 <= k < |t| ensures InOrder(o, s[0], t[k]) {
          assert t[k] in multiset(t);
          if t[k] != x {
            assert t[k] in multiset(s[1..]);
          }
        }
      }
      [s[0]] + t
  }

  /** A stable sort of the presets under the order. */
  function SortBy(o: PresetOrder, s: seq<SupportIssuePreset>): (r: seq<SupportIssuePreset>)
    ensures SortedBy(o, r)
    ensures multiset(r) == multiset(s)
  {
    if s == [] then []
    else
      assert s == [s[0]] + s[1..];
      Insert(o, s[0], SortBy(o, s[1..]))
  }

  /** `findAllByRoleAndActiveTrueOrderBySortOrderAsc(role)`. */
  function FindAllByRoleAndActiveTrueOrderBySortOrderAsc(s: seq<SupportIssuePreset>, role: UserRole): (r: seq<SupportIssuePreset>)
    ensures SortedBy(BySortOrder, r)
    ensures forall p :: multiset(r)[p] == if p.role == role && p.active then multiset(s)[p] else 0
    ensures forall p :: p in r <==> p in s && p.role == role && p.active
  {
    SortBy(BySortOrder, Select(s, ActiveOfRole(role)))
  }

  /** `findAllByRoleOrderBySortOrderAsc(role)`: inactive presets included. */
  function FindAllByRoleOrderBySortOrderAsc(s: seq<SupportIssuePreset>, role: UserRole): (r: seq<SupportIssuePreset>)
    ensures SortedBy(BySortOrder, r)
    ensures forall p :: multiset(r)[p] == if p.role == role then multiset(s)[p] else 0
    ensures forall p :: p in r <==> p in s && p.role == role
  {
    SortBy(BySortOrder, Select(s, OfRole(role)))
  }

  /** `findAllByOrderByRoleAscSortOrderAsc()`: every preset, by role name and then sortOrder. */
  function FindAllByOrderByRoleAscSortOrderAsc(s: seq<SupportIssuePreset>): (r: seq<SupportIssuePreset>)
    ensures SortedBy(ByRoleThenSortOrder, r)
    ensures multiset(r) == multiset(s)
  {
    SortBy(ByRoleThenSortOrder, s)
  }

  /** The store with the preset of `p.id` replaced by `p`. */
  function ReplaceById(s: seq<SupportIssuePreset>, p: SupportIssuePreset): (r: seq<SupportIssuePreset>)
    ensures |r| == |s|
    ensures forall k :: 0 <= k < |s| ==> r[k].id == s[k].id
    ensures (exists q :: q in s && q.id == p.id) ==> p in r
    ensures forall x :: x in s && x.id != p.id ==> x in r
    ensures forall x :: x in r ==> x == p || (x in s && x.id != p.id)
  {
    seq(|s|, k requires 0 <= k < |s| => if s[k].id == p.id then p else s[k])
  }

  /** The store without the presets of that id; the others keep their order. */
  function RemoveById(s: seq<SupportIssuePreset>, id: PresetId): (r: seq<SupportIssuePreset>)
    ensures forall p :: multiset(r)[p] == if p.id == id then 0 else multiset(s)[p]
  {
    if s == [] then []
    else
      assert s == [s[0]] + s[1..];
      if s[0].id == id then RemoveById(s[1..], id) else [s[0]] + RemoveById(s[1..], id)
  }

  /** Dropping the first preset keeps ids distinct. */
  lemma TailIdsDistinct(s: seq<SupportIssuePreset>)
    requires s != [] && IdsDistinct(s)
    ensures IdsDistinct(s[1..])
  {
    forall i, j | 0 <= i < |s[1..]| && 0 <= j < |s[1..]| && s[1..][i].id == s[1..][j].id
      ensures i == j
    {
      assert s[i + 1].id == s[j + 1].id;
    }
  }

  /** Putting a preset with a new id in front keeps ids distinct. */
  lemma ConsIdsDistinct(x: SupportIssuePreset, t: seq<SupportIssuePreset>)
    requires IdsDistinct(t) && forall q :: q in t ==> q.id != x.id
    ensures IdsDistinct([x] + t)
  {
    var r := [x] + t;
    assert forall k :: 1 <= k < |r| ==> r[k] == t[k - 1] && r[k] in t;
    forall i, j | 0 <= i < |r| && 0 <= j < |r| && r[i].id == r[j].id
      ensures i == j
    {
      if i > 0 && j > 0 {
        assert t[i - 1].id == t[j - 1].id;
      }
    }
  }

  /** Deleting keeps the remaining ids distinct. */
  lemma {:induction false} RemoveByIdKeepsIdsDistinct(s: seq<SupportIssuePreset>, id: PresetId)
    requires IdsDistinct(s)
    ensures IdsDistinct(RemoveById(s, id))
  {
    if s != [] {
      TailIdsDistinct(s);
      RemoveByIdKeepsIdsDistinct(s[1..], id);
      var t := RemoveById(s[1..], id);
      if s[0].id != id {
        forall q | q in t ensures q.id != s[0].id {
          assert q in multiset(t);
          var j :| 0 <= j < |s[1..]| && s[1..][j] == q;
          assert s[j + 1] == q;
        }
        ConsIdsDistinct(s[0], t);
      }
    }
  }

  /** Removing an id that is not stored changes nothing. */
  lemma {:induction false} RemoveAbsentId(s: seq<SupportIssuePreset>, id: PresetId)
    requires forall p :: p in s ==> p.id != id
    ensures RemoveById(s, id) == s
  {
    if s != [] {
      RemoveAbsentId(s[1..], id);
    }
  }

  /** Removing a stored id from a store of distinct ids removes exactly one preset. */
  lemma {:induction false} RemoveByIdRemovesOne(s: seq<SupportIssuePreset>, id: PresetId)
    requires IdsDistinct(s) && FindById(s, id).Some?
    ensures |RemoveById(s, id)| == |s| - 1
  {
    if s[0].id == id {
      forall p | p in s[1..] ensures p.id != id {
        var j :| 0 <= j < |s[1..]| && s[1..][j] == p;
        assert s[j + 1] == p;
      }
      RemoveAbsentId(s[1..], id);
    } else {
      TailIdsDistinct(s);
      RemoveByIdRemovesOne(s[1..], id);
    }
  }

  /** The presets table, with the id generator standing in for UUID generation. */
  class SupportIssuePresetRepository {
    var presets: seq<SupportIssuePreset>
    var nextId: PresetId

    ghost predicate Valid()
      reads this
    {
      IdsDistinct(presets) && forall k :: 0 <= k < |presets| ==> presets[k].id < nextId
    }

    constructor ()
      ensures Valid() && presets == [] && nextId == 0
    {
      presets := [];
      nextId := 0;
    }

    /** `save` of a new preset: assigns a fresh id and inserts the row. */
    method Persist(role: UserRole, text: string, sortOrder: int, active: bool) returns (saved: SupportIssuePreset)
      requires Valid()
      modifies this
      ensures Valid()
      ensures saved == SupportIssuePreset(old(nextId), role, text, sortOrder, active)
      ensures FindById(old(presets), saved.id).None?
      ensures presets == old(presets) + [saved]
    {
      saved := SupportIssuePreset(nextId, role, text, sortOrder, active);
      presets := presets + [saved];
      nextId := nextId + 1;
    }

    /** `save` of a modified existing preset: overwrites the row with its id. */
    method Merge(p: SupportIssuePreset)
      requires Valid() && FindById(presets, p.id).Some?
      modifies this`presets
      ensures Valid()
      ensures presets == ReplaceById(old(presets), p)
    {
      presets := ReplaceById(presets, p);
    }

    /** `deleteById`. */
    method DeleteById(id: PresetId)
      requires Valid()
      modifies this`presets
      ensures Valid()
      ensures presets == RemoveById(old(presets), id)
    {
      RemoveByIdKeepsIdsDistinct(presets, id);
      presets := RemoveById(presets, id);
      assert forall k :: 0 <= k < |presets| ==> presets[k] in multiset(old(presets));
    }
  }
}
