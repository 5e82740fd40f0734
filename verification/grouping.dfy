/** `groupExperienceByCompany`: experience entries gathered into one group
    per company value, in the order companies first appear, each group's
    roles in entry order with long achievements shortened. The JavaScript
    `Map` keyed by company (null included) is modelled as a sequence of
    groups searched by company, which keeps its insertion order. */
module Grouping {
  import opened Text
  import opened Entries

  datatype Role = Role(title: string, period: string, achievements: seq<string>)

  datatype CompanyGroup = CompanyGroup(company: Option<string>, location: Option<string>, roles: seq<Role>)

  /** The display limit beyond which an achievement is cut at its first full
      stop. */
  const MaxAchievement: nat := 100

  /** The website version of one responsibility: longer than 100 characters,
      it keeps the text up to and including its first `.`; otherwise, or
      without any `.`, it is unchanged. */
  function Shorten(a: string): (r: string)
    ensures r <= a
    ensures |a| <= MaxAchievement ==> r == a
    ensures !Contains(a, ".") ==> r == a
    ensures |a| > MaxAchievement && Contains(a, ".") ==>
      var i := IndexFrom(a, ".", 0).value;
      && i < |a| && r == a[..i + 1] && a[i] == '.'
      && forall t :: 0 <= t < i ==> a[t] != '.'
  {
    if |a| > MaxAchievement then
      var sentences := Split(a, ".");
      if Contains(a, ".") then
        var i := IndexFrom(a, ".", 0).value;
        assert OccursAt(a, ".", i);
        assert a[i] == "."[0];
        assert forall t :: 0 <= t < i ==> a[t] != '.' by {
          forall t | 0 <= t < i ensures a[t] != '.' {
            OccursChar(a, '.', t);
          }
        }
        assert a[..i + 1] == a[..i] + ".";
        sentences[0] + (if |sentences| > 1 then "." else "")
      else
        sentences[0] + (if |sentences| > 1 then "." else "")
    else a
  }

  function ShortenAll(rs: seq<string>): (r: seq<string>)
    ensures |r| == |rs| && forall k :: 0 <= k < |rs| ==> r[k] == Shorten(rs[k])
  {
    seq(|rs|, k requires 0 <= k < |rs| => Shorten(rs[k]))
  }

  /** The role an entry contributes to its company's group. */
  function RoleOf(e: ExperienceEntry): Role {
    Role(e.title, e.period, ShortenAll(e.responsibilities))
  }

  /** The company of each entry, in order. */
  function Keys(es: seq<ExperienceEntry>): (r: seq<Option<string>>)
    ensures |r| == |es| && forall k :: 0 <= k < |es| ==> r[k] == es[k].company
  {
    seq(|es|, k requires 0 <= k < |es| => es[k].company)
  }

  function GroupKeys(gs: seq<CompanyGroup>): (r: seq<Option<string>>)
    ensures |r| == |gs| && forall k :: 0 <= k < |gs| ==> r[k] == gs[k].company
  {
    seq(|gs|, k requires 0 <= k < |gs| => gs[k].company)
  }

  /** Index of the first occurrence of c. */
  function FirstIndex(ks: seq<Option<string>>, c: Option<string>): (r: nat)
    requires c in ks
    ensures r < |ks| && ks[r] == c && forall j :: 0 <= j < r ==> ks[j] != c
  {
    if ks[0] == c then 0 else 1 + FirstIndex(ks[1..], c)
  }

  lemma FirstIndexUnique(ks: seq<Option<string>>, c: Option<string>, i: nat)
    requires i < |ks| && ks[i] == c && forall j :: 0 <= j < i ==> ks[j] != c
    ensures FirstIndex(ks, c) == i
  {
  }

  /** A later key does not move an earlier first occurrence; a new key first
      occurs at the end. */
  lemma FirstIndexAppend(ks: seq<Option<string>>, x: Option<string>, c: Option<string>)
    requires c in ks + [x]
    ensures c in ks ==> FirstIndex(ks + [x], c) == FirstIndex(ks, c)
    ensures c !in ks ==> FirstIndex(ks + [x], c) == |ks|
  {
    var ks2 := ks + [x];
    if c in ks {
      var i := FirstIndex(ks, c);
      assert ks2[i] == c;
      FirstIndexUnique(ks2, c, i);
    } else {
      assert ks2[|ks|] == c;
      FirstIndexUnique(ks2, c, |ks|);
    }
  }

  /** Reference definition: the roles of the entries whose company is c, in
      entry order. */
  function RolesWith(es: seq<ExperienceEntry>, c: Option<string>): seq<Role>
    decreases |es|
  {
    if |es| == 0 then []
    else
      var last := es[|es| - 1];
      RolesWith(es[..|es| - 1], c) + (if last.company == c then [RoleOf(last)] else [])
  }

  /** The number of roles over all groups. */
  function TotalRoles(gs: seq<CompanyGroup>): nat
    decreases |gs|
  {
    if |gs| == 0 then 0 else TotalRoles(gs[..|gs| - 1]) + |gs[|gs| - 1].roles|
  }

  /** `companies.has` / `companies.get`: the group holding company c. */
  function FindGroup(gs: seq<CompanyGroup>, c: Option<string>): (r: Option<nat>)
    ensures r.Some? ==> r.value < |gs| && gs[r.value].company == c
    ensures r.None? <==> c !in GroupKeys(gs)
    decreases |gs|
  {
    if |gs| == 0 then None
    else if gs[|gs| - 1].company == c then Some(|gs| - 1)
    else
      var r := FindGroup(gs[..|gs| - 1], c);
      assert GroupKeys(gs) == GroupKeys(gs[..|gs| - 1]) + [gs[|gs| - 1].company];
      r
  }

  /** One step of the `forEach`: a new company opens a group with the entry's
      location; a known one gets the role appended. */
  function AddEntry(gs: seq<CompanyGroup>, e: ExperienceEntry): seq<CompanyGroup> {
    match FindGroup(gs, e.company)
    case Some(k) => gs[k := gs[k].(roles := gs[k].roles + [RoleOf(e)])]
    case None => gs + [CompanyGroup(e.company, e.location, [RoleOf(e)])]
  }

  /** `groupExperienceByCompany`. */
  function GroupByCompany(es: seq<ExperienceEntry>): seq<CompanyGroup>
    decreases |es|
  {
    if |es| == 0 then [] else AddEntry(GroupByCompany(es[..|es| - 1]), es[|es| - 1])
  }

  /** One group per company. */
  predicate DistinctCompanies(gs: seq<CompanyGroup>) {
    forall i, j :: 0 <= i < j < |gs| ==> gs[i].company != gs[j].company
  }

  /** The groups hold exactly the companies that occur among the entries. */
  predicate SameCompanies(es: seq<ExperienceEntry>, gs: seq<CompanyGroup>) {
    && (forall k :: 0 <= k < |es| ==> es[k].company in GroupKeys(gs))
    && (forall k :: 0 <= k < |gs| ==> gs[k].company in Keys(es))
  }

  /** Groups come in the order their companies first occur. */
  predicate FirstOccurrenceOrder(es: seq<ExperienceEntry>, gs: seq<CompanyGroup>)
    requires SameCompanies(es, gs)
  {
    forall i, j :: 0 <= i < j < |gs| ==>
      FirstIndex(Keys(es), gs[i].company) < FirstIndex(Keys(es), gs[j].company)
  }

  /** Each group has the location of its company's first entry. */
  predicate FirstLocation(es: seq<ExperienceEntry>, gs: seq<CompanyGroup>)
    requires SameCompanies(es, gs)
  {
    forall k :: 0 <= k < |gs| ==> gs[k].location == es[FirstIndex(Keys(es), gs[k].company)].location
  }

  /** Each group has its company's roles, in entry order. */
  predicate RolesInOrder(es: seq<ExperienceEntry>, gs: seq<CompanyGroup>) {
    forall k :: 0 <= k < |gs| ==> gs[k].roles == RolesWith(es, gs[k].company)
  }

  predicate NoEmptyGroup(gs: seq<CompanyGroup>) {
    forall k :: 0 <= k < |gs| ==> gs[k].roles != []
  }

  /** What the groups of entries es are, stated without the algorithm; the
      last conjunct says no role is lost or invented. */
  predicate Grouped(es: seq<ExperienceEntry>, gs: seq<CompanyGroup>) {
    && DistinctCompanies(gs)
    && SameCompanies(es, gs)
    && FirstOccurrenceOrder(es, gs)
    && FirstLocation(es, gs)
    && RolesInOrder(es, gs)
    && NoEmptyGroup(gs)
    && TotalRoles(gs) == |es|
  }

  lemma {:induction false} GroupByCompanyMeans(es: seq<ExperienceEntry>)
    ensures Grouped(es, GroupByCompany(es))
    decreases |es|
  {
    if |es| > 0 {
      var init := es[..|es| - 1];
      assert es == init + [es[|es| - 1]];
      GroupByCompanyMeans(init);
      AddEntryKeeps(init, GroupByCompany(init), es[|es| - 1], es);
    }
  }

  lemma KeysAppend(es: seq<ExperienceEntry>, e: ExperienceEntry)
    ensures Keys(es + [e]) == Keys(es) + [e.company]
  {
  }

  lemma RolesWithAppend(es: seq<ExperienceEntry>, e: ExperienceEntry, c: Option<string>)
    ensures RolesWith(es + [e], c) == RolesWith(es, c) + (if e.company == c then [RoleOf(e)] else [])
  {
    assert (es + [e])[..|es|] == es;
  }

  /** A company that does not occur has no roles. */
  lemma {:induction false} RolesWithAbsent(es: seq<ExperienceEntry>, c: Option<string>)
    requires c !in Keys(es)
    ensures RolesWith(es, c) == []
    decreases |es|
  {
    if |es| > 0 {
      var init := es[..|es| - 1];
      assert Keys(es) == Keys(init) + [es[|es| - 1].company];
      RolesWithAbsent(init, c);
    }
  }

  lemma TotalRolesAppend(gs: seq<CompanyGroup>, g: CompanyGroup)
    ensures TotalRoles(gs + [g]) == TotalRoles(gs) + |g.roles|
  {
    assert (gs + [g])[..|gs|] == gs;
  }

  lemma {:induction false} TotalRolesUpdate(gs: seq<CompanyGroup>, k: nat, g: CompanyGroup)
    requires k < |gs|
    ensures TotalRoles(gs[k := g]) + |gs[k].roles| == TotalRoles(gs) + |g.roles|
    decreases |gs|
  {
    var n := |gs| - 1;
    var gs2 := gs[k := g];
    if k < n {
      assert gs2[..n] == gs[..n][k := g];
      TotalRolesUpdate(gs[..n], k, g);
    } else {
      assert gs2[..n] == gs[..n];
    }
  }

  /** The step preserves the declarative description. */
  lemma AddEntryKeeps(es: seq<ExperienceEntry>, gs: seq<CompanyGroup>, e: ExperienceEntry, es2: seq<ExperienceEntry>)
    requires Grouped(es, gs) && es2 == es + [e]
    ensures Grouped(es2, AddEntry(gs, e))
  {
    match FindGroup(gs, e.company)
    case Some(k) => AddToGroupKeeps(es, gs, e, k);
    case None => AddNewGroupKeeps(es, gs, e);
  }

  lemma AddToGroupKeeps(es: seq<ExperienceEntry>, gs: seq<CompanyGroup>, e: ExperienceEntry, k: nat)
    requires Grouped(es, gs)
    requires k < |gs| && gs[k].company == e.company
    ensures Grouped(es + [e], gs[k := gs[k].(roles := gs[k].roles + [RoleOf(e)])])
  {
    KeysAppend(es, e);
    var gs2 := gs[k := gs[k].(roles := gs[k].roles + [RoleOf(e)])];
    assert GroupKeys(gs2) == GroupKeys(gs);
    UpdateCompanies(es, gs, e, k, gs2);
    UpdateOrder(es, gs, e, k, gs2);
    UpdateRoles(es, gs, e, k, gs2);
    TotalRolesUpdate(gs, k, gs2[k]);
  }

  lemma AddNewGroupKeeps(es: seq<ExperienceEntry>, gs: seq<CompanyGroup>, e: ExperienceEntry)
    requires Grouped(es, gs)
    requires e.company !in GroupKeys(gs)
    ensures Grouped(es + [e], gs + [CompanyGroup(e.company, e.location, [RoleOf(e)])])
  {
    KeysAppend(es, e);
    var gs2 := gs + [CompanyGroup(e.company, e.location, [RoleOf(e)])];
    assert GroupKeys(gs2) == GroupKeys(gs) + [e.company];
    NewCompanyAbsent(es, gs, e);
    NewCompanies(es, gs, e, gs2);
    NewOrder(es, gs, e, gs2);
    NewLocation(es, gs, e, gs2);
    NewRoles(es, gs, e, gs2);
    TotalRolesAppend(gs, gs2[|gs|]);
  }

  lemma UpdateCompanies(es: seq<ExperienceEntry>, gs: seq<CompanyGroup>, e: ExperienceEntry, k: nat,
                        gs2: seq<CompanyGroup>)
    requires SameCompanies(es, gs) && DistinctCompanies(gs)
    requires k < |gs| && gs[k].company == e.company
    requires |gs2| == |gs| && forall j :: 0 <= j < |gs| ==> gs2[j].company == gs[j].company
    requires GroupKeys(gs2) == GroupKeys(gs) && Keys(es + [e]) == Keys(es) + [e.company]
    ensures SameCompanies(es + [e], gs2) && DistinctCompanies(gs2)
  {
    var es2 := es + [e];
    forall j | 0 <= j < |es2| ensures es2[j].company in GroupKeys(gs2) {
      if j == |es| {
        assert GroupKeys(gs2)[k] == e.company;
      }
    }
  }

  /** Adding a role to an existing group moves no first occurrence. */
  lemma UpdateIndices(es: seq<ExperienceEntry>, gs: seq<CompanyGroup>, e: ExperienceEntry,
                      gs2: seq<CompanyGroup>)
    requires SameCompanies(es, gs)
    requires |gs2| == |gs| && forall j :: 0 <= j < |gs| ==> gs2[j].company == gs[j].company
    requires Keys(es + [e]) == Keys(es) + [e.company]
    ensures forall j :: 0 <= j < |gs| ==>
      gs2[j].company in Keys(es + [e]) && FirstIndex(Keys(es + [e]), gs2[j].company) == FirstIndex(Keys(es), gs[j].company)
  {
    forall j | 0 <= j < |gs|
      ensures gs2[j].company in Keys(es + [e])
      ensures FirstIndex(Keys(es + [e]), gs2[j].company) == FirstIndex(Keys(es), gs[j].company)
    {
      FirstIndexAppend(Keys(es), e.company, gs2[j].company);
    }
  }

  lemma UpdateOrder(es: seq<ExperienceEntry>, gs: seq<CompanyGroup>, e: ExperienceEntry, k: nat,
                    gs2: seq<CompanyGroup>)
    requires SameCompanies(es, gs) && FirstOccurrenceOrder(es, gs) && FirstLocation(es, gs)
    requires k < |gs| && gs[k].company == e.company
    requires |gs2| == |gs| && forall j :: 0 <= j < |gs| ==> gs2[j].company == gs[j].company
    requires forall j :: 0 <= j < |gs| ==> gs2[j].location == gs[j].location
    requires SameCompanies(es + [e], gs2) && Keys(es + [e]) == Keys(es) + [e.company]
    ensures FirstOccurrenceOrder(es + [e], gs2)
    ensures FirstLocation(es + [e], gs2)
  {
    UpdateIndices(es, gs, e, gs2);
    forall j | 0 <= j < |gs2|
      ensures gs2[j].location == (es + [e])[FirstIndex(Keys(es + [e]), gs2[j].company)].location
    {
      assert FirstIndex(Keys(es), gs[j].company) < |es|;
    }
  }

  lemma UpdateRoles(es: seq<ExperienceEntry>, gs: seq<CompanyGroup>, e: ExperienceEntry, k: nat,
                    gs2: seq<CompanyGroup>)
    requires RolesInOrder(es, gs) && NoEmptyGroup(gs) && DistinctCompanies(gs)
    requires k < |gs| && gs[k].company == e.company
    requires gs2 == gs[k := gs[k].(roles := gs[k].roles + [RoleOf(e)])]
    ensures RolesInOrder(es + [e], gs2) && NoEmptyGroup(gs2)
  {
    forall j | 0 <= j < |gs2| ensures gs2[j].roles == RolesWith(es + [e], gs2[j].company) {
      RolesWithAppend(es, e, gs2[j].company);
    }
  }

  /** A company with no group does not occur among the entries. */
  lemma NewCompanyAbsent(es: seq<ExperienceEntry>, gs: seq<CompanyGroup>, e: ExperienceEntry)
    requires SameCompanies(es, gs) && e.company !in GroupKeys(gs)
    ensures e.company !in Keys(es)
  {
    forall i | 0 <= i < |es| ensures Keys(es)[i] != e.company {
      assert es[i].company in GroupKeys(gs);
    }
  }

  lemma NewCompanies(es: seq<ExperienceEntry>, gs: seq<CompanyGroup>, e: ExperienceEntry, gs2: seq<CompanyGroup>)
    requires SameCompanies(es, gs) && DistinctCompanies(gs)
    requires e.company !in GroupKeys(gs)
    requires |gs2| == |gs| + 1 && gs2[..|gs|] == gs && gs2[|gs|].company == e.company
    requires GroupKeys(gs2) == GroupKeys(gs) + [e.company] && Keys(es + [e]) == Keys(es) + [e.company]
    ensures SameCompanies(es + [e], gs2) && DistinctCompanies(gs2)
  {
    assert forall j :: 0 <= j < |gs| ==> gs2[j] == gs[j];
    assert forall j :: 0 <= j < |gs| ==> gs[j].company == GroupKeys(gs)[j];
  }

  /** A new group moves no first occurrence, and its company first occurs
      at the new entry. */
  lemma NewIndices(es: seq<ExperienceEntry>, gs: seq<CompanyGroup>, e: ExperienceEntry, gs2: seq<CompanyGroup>)
    requires SameCompanies(es, gs)
    requires e.company !in Keys(es)
    requires gs2 == gs + [CompanyGroup(e.company, e.location, [RoleOf(e)])]
    requires Keys(es + [e]) == Keys(es) + [e.company]
    ensures forall j :: 0 <= j < |gs2| ==> gs2[j].company in Keys(es + [e])
    ensures forall j :: 0 <= j < |gs| ==>
      FirstIndex(Keys(es + [e]), gs2[j].company) == FirstIndex(Keys(es), gs[j].company) < |es|
    ensures FirstIndex(Keys(es + [e]), gs2[|gs|].company) == |es|
  {
    forall j | 0 <= j < |gs|
      ensures gs2[j].company in Keys(es + [e])
      ensures FirstIndex(Keys(es + [e]), gs2[j].company) == FirstIndex(Keys(es), gs[j].company) < |es|
    {
      FirstIndexAppend(Keys(es), e.company, gs2[j].company);
    }
    FirstIndexAppend(Keys(es), e.company, e.company);
  }

  lemma NewOrder(es: seq<ExperienceEntry>, gs: seq<CompanyGroup>, e: ExperienceEntry, gs2: seq<CompanyGroup>)
    requires SameCompanies(es, gs) && FirstOccurrenceOrder(es, gs) && FirstLocation(es, gs)
    requires e.company !in Keys(es)
    requires gs2 == gs + [CompanyGroup(e.company, e.location, [RoleOf(e)])]
    requires SameCompanies(es + [e], gs2) && Keys(es + [e]) == Keys(es) + [e.company]
    ensures FirstOccurrenceOrder(es + [e], gs2)
  {
    NewIndices(es, gs, e, gs2);
  }

  lemma NewLocation(es: seq<ExperienceEntry>, gs: seq<CompanyGroup>, e: ExperienceEntry, gs2: seq<CompanyGroup>)
    requires SameCompanies(es, gs) && FirstLocation(es, gs)
    requires e.company !in Keys(es)
    requires gs2 == gs + [CompanyGroup(e.company, e.location, [RoleOf(e)])]
    requires SameCompanies(es + [e], gs2) && Keys(es + [e]) == Keys(es) + [e.company]
    ensures FirstLocation(es + [e], gs2)
  {
    NewIndices(es, gs, e, gs2);
    forall j | 0 <= j < |gs2|
      ensures gs2[j].location == (es + [e])[FirstIndex(Keys(es + [e]), gs2[j].company)].location
    {
    }
  }

  lemma NewRoles(es: seq<ExperienceEntry>, gs: seq<CompanyGroup>, e: ExperienceEntry, gs2: seq<CompanyGroup>)
    requires RolesInOrder(es, gs) && NoEmptyGroup(gs) && SameCompanies(es, gs)
    requires e.company !in Keys(es)
    requires gs2 == gs + [CompanyGroup(e.company, e.location, [RoleOf(e)])]
    ensures RolesInOrder(es + [e], gs2) && NoEmptyGroup(gs2)
  {
    forall j | 0 <= j < |gs2| ensures gs2[j].roles == RolesWith(es + [e], gs2[j].company) {
      RolesWithAppend(es, e, gs2[j].company);
      if j == |gs| {
        RolesWithAbsent(es, e.company);
      }
    }
  }
}
