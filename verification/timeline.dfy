/** `createTimelineFromResume`: one work item per company group, one item
    for all certificates when there are any, one item per education entry,
    then the whole list sorted with `Present` items first and, within each
    of the two classes, by start year, most recent first. */
module Timeline {
  import opened Text
  import opened Entries
  import opened Grouping
  import opened Years

  datatype ItemKind = Work | Certification | Education

  datatype TimelineItem = TimelineItem(
    year: string,
    company: Option<string>,
    description: string,
    kind: ItemKind,
    roles: seq<Role>)

  const CertificationsCompany: string := "Professional Certifications"
  const CertificationsDescription: string :=
    "Achieved key professional certifications in project management and data analytics."
  const NoCredential: string := "Professional certification demonstrating expertise and knowledge"
  const HomeInstitution: string := "University of Northern Colorado"
  const HomeDescription: string :=
    "Foundational education in teaching and pedagogy, developing leadership skills through competitive athletics at the Division 1 level."
  const OtherDescription: string := "Advanced studies in applied technology and training development."

  // ---------------------------------------------------------------------------
  // Minimum and maximum

  function MinOf(xs: seq<int>): (m: int)
    requires |xs| > 0
    ensures m in xs && forall k :: 0 <= k < |xs| ==> m <= xs[k]
  {
    if |xs| == 1 then xs[0]
    else
      var rest := MinOf(xs[1..]);
      if xs[0] <= rest then xs[0] else rest
  }

  function MaxOf(xs: seq<int>): (m: int)
    requires |xs| > 0
    ensures m in xs && forall k :: 0 <= k < |xs| ==> xs[k] <= m
  {
    if |xs| == 1 then xs[0]
    else
      var rest := MaxOf(xs[1..]);
      if xs[0] >= rest then xs[0] else rest
  }

  // ---------------------------------------------------------------------------
  // Work items

  function Starts(roles: seq<Role>, currentYear: int): (r: seq<int>)
    ensures |r| == |roles|
    ensures forall k :: 0 <= k < |roles| ==> r[k] == RoleSpan(roles[k].period, currentYear).start
  {
    seq(|roles|, k requires 0 <= k < |roles| => RoleSpan(roles[k].period, currentYear).start)
  }

  function Ends(roles: seq<Role>, currentYear: int): (r: seq<int>)
    ensures |r| == |roles|
    ensures forall k :: 0 <= k < |roles| ==> r[k] == RoleSpan(roles[k].period, currentYear).end
  {
    seq(|roles|, k requires 0 <= k < |roles| => RoleSpan(roles[k].period, currentYear).end)
  }

  /** `company.roles.some(role => role.period.includes('Present'))`. */
  predicate AnyPresent(roles: seq<Role>) {
    exists k :: 0 <= k < |roles| && Contains(roles[k].period, "Present")
  }

  /** `${lo} - Present` when there is no end year, else `${lo} - ${hi}`. */
  function RangeText(lo: int, hi: Option<int>): string {
    IntToString(lo) + " - " + match hi case None => "Present" case Some(h) => IntToString(h)
  }

  /** The year range of a company: its earliest start, then `Present` when
      any role's period mentions it, else its latest end. */
  function WorkYear(roles: seq<Role>, currentYear: int): string
    requires |roles| > 0
  {
    RangeText(MinOf(Starts(roles, currentYear)),
              if AnyPresent(roles) then None else Some(MaxOf(Ends(roles, currentYear))))
  }

  function WorkDescription(roles: seq<Role>): string
    requires |roles| > 0
  {
    if |roles| > 1 then
      "Progressive advancement across " + NatToString(|roles|)
        + " roles focusing on data analysis, project management, and operational excellence."
    else "Professional experience in " + ToLowerAscii(roles[0].title) + "."
  }

  function WorkItem(g: CompanyGroup, currentYear: int): (r: TimelineItem)
    requires g.roles != []
    ensures r.kind == Work && r.company == g.company && r.roles == g.roles
  {
    TimelineItem(WorkYear(g.roles, currentYear), g.company, WorkDescription(g.roles), Work, g.roles)
  }

  function WorkItems(gs: seq<CompanyGroup>, currentYear: int): (r: seq<TimelineItem>)
    requires NoEmptyGroup(gs)
    ensures |r| == |gs| && forall k :: 0 <= k < |gs| ==> r[k] == WorkItem(gs[k], currentYear)
  {
    seq(|gs|, k requires 0 <= k < |gs| => WorkItem(gs[k], currentYear))
  }

  /** Only digits, `-` and spaces. */
  predicate Numeric(s: string) {
    forall k :: 0 <= k < |s| ==> IsDigit(s[k]) || s[k] == '-' || s[k] == ' '
  }

  lemma NumericNoPresent(s: string)
    requires Numeric(s)
    ensures !Contains(s, "Present")
  {
    forall j | 0 <= j ensures !OccursAt(s, "Present", j) {
      if j < |s| {
        assert s[j] != "Present"[0];
      }
    }
  }

  /** A range text mentions `Present` exactly when it has no end year. */
  lemma RangeTextPresent(lo: int, hi: Option<int>)
    ensures Contains(RangeText(lo, hi), "Present") <==> hi.None?
  {
    var y := RangeText(lo, hi);
    var m := IntToString(lo);
    if hi.None? {
      assert y == m + " - " + "Present";
      assert OccursAt(y, "Present", |m| + 3);
      OccursContains(y, "Present", |m| + 3);
    } else {
      var h := IntToString(hi.value);
      assert y == m + " - " + h;
      assert Numeric(y) by {
        forall k | 0 <= k < |y| ensures IsDigit(y[k]) || y[k] == '-' || y[k] == ' ' {
          if k < |m| {
            assert y[k] == m[k];
          } else if k >= |m| + 3 {
            assert y[k] == h[k - |m| - 3];
          }
        }
      }
      NumericNoPresent(y);
    }
  }

  /** The start year read back from a range text is its first year, when
      that has four significant digits. */
  lemma RangeTextStart(lo: int, hi: Option<int>)
    requires 1000 <= lo <= 9999
    ensures StartYear(RangeText(lo, hi)) == lo
  {
    var rest := " - " + match hi case None => "Present" case Some(h) => IntToString(h);
    assert RangeText(lo, hi) == NatToString(lo) + rest;
    StartYearOfPrinted(lo, rest);
  }

  /** A work item's year says `Present` exactly when some role's period
      does. */
  lemma WorkYearPresent(roles: seq<Role>, currentYear: int)
    requires |roles| > 0
    ensures Contains(WorkYear(roles, currentYear), "Present") <==> AnyPresent(roles)
  {
    RangeTextPresent(MinOf(Starts(roles, currentYear)),
                     if AnyPresent(roles) then None else Some(MaxOf(Ends(roles, currentYear))));
  }

  /** The start year the sort reads back from a work item is the company's
      earliest start, whenever that has four significant digits. */
  lemma WorkYearStart(roles: seq<Role>, currentYear: int)
    requires |roles| > 0
    requires 1000 <= MinOf(Starts(roles, currentYear))
    ensures StartYear(WorkYear(roles, currentYear)) == MinOf(Starts(roles, currentYear))
  {
    RangeTextStart(MinOf(Starts(roles, currentYear)),
                   if AnyPresent(roles) then None else Some(MaxOf(Ends(roles, currentYear))));
  }

  /** Without `Present` the range is the earliest start and the latest end,
      both printed even when they are equal. */
  lemma WorkYearClosed(roles: seq<Role>, currentYear: int)
    requires |roles| > 0 && !AnyPresent(roles)
    ensures WorkYear(roles, currentYear)
         == IntToString(MinOf(Starts(roles, currentYear))) + " - " + IntToString(MaxOf(Ends(roles, currentYear)))
    ensures forall k :: 0 <= k < |roles| ==>
      MinOf(Starts(roles, currentYear)) <= RoleSpan(roles[k].period, currentYear).start
      && RoleSpan(roles[k].period, currentYear).end <= MaxOf(Ends(roles, currentYear))
  {
  }

  /** An open range prints as the start followed by ` - Present`. */
  lemma OpenRangeText(lo: int)
    ensures RangeText(lo, None) == IntToString(lo) + " - Present"
  {
    var sep: string, word: string := " - ", "Present";
    assert sep + word == " - Present";
    assert (IntToString(lo) + sep) + word == IntToString(lo) + (sep + word);
  }

  /** With `Present` in some role's period, the range is the earliest start
      followed by ` - Present`; that start bounds every role's start. */
  lemma WorkYearOpen(roles: seq<Role>, currentYear: int)
    requires |roles| > 0 && AnyPresent(roles)
    ensures WorkYear(roles, currentYear) == IntToString(MinOf(Starts(roles, currentYear))) + " - Present"
    ensures forall k :: 0 <= k < |roles| ==>
      MinOf(Starts(roles, currentYear)) <= RoleSpan(roles[k].period, currentYear).start
  {
    var starts := Starts(roles, currentYear);
    var lo := MinOf(starts);
    OpenRangeText(lo);
    forall k | 0 <= k < |roles| ensures lo <= RoleSpan(roles[k].period, currentYear).start {
      assert lo <= starts[k];
    }
  }

  /** What the sort reads from a work item: `Present` exactly when some
      role's period mentions it, and the company's earliest start year
      whenever that has four significant digits. */
  lemma WorkItemMeans(g: CompanyGroup, currentYear: int)
    requires g.roles != []
    ensures HasPresent(WorkItem(g, currentYear)) <==> AnyPresent(g.roles)
    ensures 1000 <= MinOf(Starts(g.roles, currentYear)) ==>
      StartYear(WorkItem(g, currentYear).year) == MinOf(Starts(g.roles, currentYear))
  {
    WorkYearPresent(g.roles, currentYear);
    if 1000 <= MinOf(Starts(g.roles, currentYear)) {
      WorkYearStart(g.roles, currentYear);
    }
  }

  // ---------------------------------------------------------------------------
  // The certification item

  function CertYears(certs: seq<Certificate>): (r: seq<int>)
    ensures |r| == |certs| && forall k :: 0 <= k < |certs| ==> r[k] == CertYear(certs[k].period)
  {
    seq(|certs|, k requires 0 <= k < |certs| => CertYear(certs[k].period))
  }

  /** One year when all certificates share it, else `min - max`. */
  function CertYearRange(certs: seq<Certificate>): (r: string)
    requires |certs| > 0
    ensures MinOf(CertYears(certs)) == MaxOf(CertYears(certs)) ==> r == IntToString(MinOf(CertYears(certs)))
    ensures MinOf(CertYears(certs)) != MaxOf(CertYears(certs)) ==>
      r == IntToString(MinOf(CertYears(certs))) + " - " + IntToString(MaxOf(CertYears(certs)))
  {
    var ys := CertYears(certs);
    var lo, hi := MinOf(ys), MaxOf(ys);
    if lo == hi then IntToString(lo) else IntToString(lo) + " - " + IntToString(hi)
  }

  /** A certificate as a role: its issuer, then its credential line. */
  function CertRole(c: Certificate): (r: Role)
    ensures r.title == c.title && r.period == c.period && |r.achievements| == 2
    ensures r.achievements[0] == c.issuer
    ensures c.credentialId != [] ==> r.achievements[1] == "Credential ID: " + c.credentialId
    ensures c.credentialId == [] ==> r.achievements[1] == NoCredential
  {
    Role(c.title, c.period,
         [c.issuer, if c.credentialId != [] then "Credential ID: " + c.credentialId else NoCredential])
  }

  function CertItem(certs: seq<Certificate>): (r: TimelineItem)
    requires |certs| > 0
    ensures r.kind == Certification && r.company == Some(CertificationsCompany)
    ensures |r.roles| == |certs| && forall k :: 0 <= k < |certs| ==> r.roles[k] == CertRole(certs[k])
  {
    TimelineItem(CertYearRange(certs), Some(CertificationsCompany), CertificationsDescription,
                 Certification, seq(|certs|, k requires 0 <= k < |certs| => CertRole(certs[k])))
  }

  /** All certificates in one year: the range is that year alone, and the sort
      reads it back. */
  lemma CertYearSingle(certs: seq<Certificate>)
    requires |certs| > 0
    requires forall k :: 0 <= k < |certs| ==> CertYear(certs[k].period) == CertYear(certs[0].period)
    requires 1000 <= CertYear(certs[0].period)
    ensures CertYearRange(certs) == IntToString(CertYear(certs[0].period))
    ensures StartYear(CertYearRange(certs)) == CertYear(certs[0].period)
  {
    var ys := CertYears(certs);
    assert MinOf(ys) == ys[0] == MaxOf(ys);
    StartYearOfPrinted(ys[0], []);
    assert NatToString(ys[0]) + [] == NatToString(ys[0]);
  }

  /** What the sort reads from the certification item: never `Present`, a
      range exactly when the certificates' years differ, and the earliest
      year whenever that has four significant digits. */
  lemma CertItemMeans(certs: seq<Certificate>)
    requires |certs| > 0
    ensures !HasPresent(CertItem(certs))
    ensures Contains(CertItem(certs).year, " - ") <==> MinOf(CertYears(certs)) != MaxOf(CertYears(certs))
    ensures 1000 <= MinOf(CertYears(certs)) ==> StartYear(CertItem(certs).year) == MinOf(CertYears(certs))
  {
    var ys := CertYears(certs);
    var lo, hi := MinOf(ys), MaxOf(ys);
    var y := CertItem(certs).year;
    if lo == hi {
      assert y == IntToString(lo);
      NumericNoPresent(y);
      forall j | 0 <= j ensures !OccursAt(y, " - ", j) {
        if j < |y| {
          assert y[j] != " - "[0];
        }
      }
      if 1000 <= lo {
        StartYearOfPrinted(lo, []);
        assert NatToString(lo) + [] == NatToString(lo);
      }
    } else {
      assert y == RangeText(lo, Some(hi));
      RangeTextPresent(lo, Some(hi));
      assert OccursAt(y, " - ", |IntToString(lo)|);
      OccursContains(y, " - ", |IntToString(lo)|);
      if 1000 <= lo {
        RangeTextStart(lo, Some(hi));
      }
    }
  }

  // ---------------------------------------------------------------------------
  // Education items

  function EducationItem(edu: EducationEntry): (r: TimelineItem)
    ensures r.kind == Education && r.year == edu.period && r.company == Some(edu.institution)
    ensures r.description == (if edu.institution == HomeInstitution then HomeDescription else OtherDescription)
    ensures |r.roles| == 1 && r.roles[0].title == edu.degree && r.roles[0].period == edu.period
    ensures r.roles[0].achievements == edu.achievements + [edu.location]
    ensures HasPresent(r) <==> Contains(edu.period, "Present")
    ensures StartYear(r.year) == StartYear(edu.period)
  {
    TimelineItem(edu.period, Some(edu.institution),
                 if edu.institution == HomeInstitution then HomeDescription else OtherDescription,
                 Education, [Role(edu.degree, edu.period, edu.achievements + [edu.location])])
  }

  function EducationItems(edus: seq<EducationEntry>): (r: seq<TimelineItem>)
    ensures |r| == |edus| && forall k :: 0 <= k < |edus| ==> r[k] == EducationItem(edus[k])
  {
    seq(|edus|, k requires 0 <= k < |edus| => EducationItem(edus[k]))
  }

  // ---------------------------------------------------------------------------
  // Sorting

  predicate HasPresent(item: TimelineItem) {
    Contains(item.year, "Present")
  }

  /** The comparator of the source: negative when a goes first. Its sign is
      the order of the single number Key, so it is a consistent total
      preorder and the sort is well defined. */
  function Compare(a: TimelineItem, b: TimelineItem): (c: int)
    ensures c < 0 <==> Key(a) < Key(b)
    ensures c == 0 <==> Key(a) == Key(b)
    ensures c > 0 <==> Key(a) > Key(b)
  {
    if HasPresent(a) && !HasPresent(b) then -1
    else if !HasPresent(a) && HasPresent(b) then 1
    else StartYear(b.year) - StartYear(a.year)
  }

  /** The comparator orders by a single number: the class (`Present` or not)
      first, then the start year descending. */
  function Key(item: TimelineItem): (k: int)
    ensures 0 <= k < 20000
  {
    (if HasPresent(item) then 0 else 10000) + (9999 - StartYear(item.year))
  }

  predicate SortedBy(s: seq<TimelineItem>, key: TimelineItem -> int) {
    forall i, j :: 0 <= i < j < |s| ==> key(s[i]) <= key(s[j])
  }

  /** The items of s whose key is k, in order. */
  function WithKey(s: seq<TimelineItem>, key: TimelineItem -> int, k: int): seq<TimelineItem>
    decreases |s|
  {
    if |s| == 0 then []
    else WithKey(s[..|s| - 1], key, k) + (if key(s[|s| - 1]) == k then [s[|s| - 1]] else [])
  }

  /** The largest key among sorted s and x. */
  function TopKey(s: seq<TimelineItem>, x: TimelineItem, key: TimelineItem -> int): int {
    if |s| == 0 || key(s[|s| - 1]) <= key(x) then key(x) else key(s[|s| - 1])
  }

  /** Insert x into sorted s after every element whose key is not larger. */
  function Insert(s: seq<TimelineItem>, x: TimelineItem, key: TimelineItem -> int): (r: seq<TimelineItem>)
    requires SortedBy(s, key)
    ensures |r| == |s| + 1
    ensures SortedBy(r, key)
    ensures forall i :: 0 <= i < |r| ==> key(r[i]) <= TopKey(s, x, key)
    decreases |s|
  {
    if |s| == 0 || key(s[|s| - 1]) <= key(x) then s + [x]
    else
      var init := s[..|s| - 1];
      assert |init| > 0 ==> key(init[|init| - 1]) <= key(s[|s| - 1]);
      Insert(init, x, key) + [s[|s| - 1]]
  }

  /** Stable sort by key (insertion sort from the front). */
  function SortBy(s: seq<TimelineItem>, key: TimelineItem -> int): (r: seq<TimelineItem>)
    ensures |r| == |s|
    ensures SortedBy(r, key)
    decreases |s|
  {
    if |s| == 0 then [] else Insert(SortBy(s[..|s| - 1], key), s[|s| - 1], key)
  }

  lemma {:induction false} InsertPermutes(s: seq<TimelineItem>, x: TimelineItem, key: TimelineItem -> int)
    requires SortedBy(s, key)
    ensures multiset(Insert(s, x, key)) == multiset(s) + multiset{x}
    decreases |s|
  {
    if |s| > 0 && key(s[|s| - 1]) > key(x) {
      var init := s[..|s| - 1];
      assert s == init + [s[|s| - 1]];
      InsertPermutes(init, x, key);
    }
  }

  /** The sort rearranges its input and nothing else. */
  lemma {:induction false} SortPermutes(s: seq<TimelineItem>, key: TimelineItem -> int)
    ensures multiset(SortBy(s, key)) == multiset(s)
    decreases |s|
  {
    if |s| > 0 {
      var init := s[..|s| - 1];
      assert s == init + [s[|s| - 1]];
      SortPermutes(init, key);
      InsertPermutes(SortBy(init, key), s[|s| - 1], key);
    }
  }

  lemma WithKeyAppend(s: seq<TimelineItem>, x: TimelineItem, key: TimelineItem -> int, k: int)
    ensures WithKey(s + [x], key, k) == WithKey(s, key, k) + (if key(x) == k then [x] else [])
  {
    assert (s + [x])[..|s|] == s;
  }

  /** Inserting keeps items of equal key in order, the inserted one last. */
  lemma {:induction false} InsertStable(s: seq<TimelineItem>, x: TimelineItem, key: TimelineItem -> int, k: int)
    requires SortedBy(s, key)
    ensures WithKey(Insert(s, x, key), key, k) == WithKey(s, key, k) + (if key(x) == k then [x] else [])
    decreases |s|
  {
    if |s| == 0 || key(s[|s| - 1]) <= key(x) {
      WithKeyAppend(s, x, key, k);
    } else {
      var last := s[|s| - 1];
      var init := s[..|s| - 1];
      assert s == init + [last];
      InsertStable(init, x, key, k);
      WithKeyAppend(Insert(init, x, key), last, key, k);
      WithKeyAppend(init, last, key, k);
    }
  }

  /** The sort is stable: for every key the items with it keep their input
      order. */
  lemma {:induction false} SortStable(s: seq<TimelineItem>, key: TimelineItem -> int, k: int)
    ensures WithKey(SortBy(s, key), key, k) == WithKey(s, key, k)
    decreases |s|
  {
    if |s| > 0 {
      var init := s[..|s| - 1];
      SortStable(init, key, k);
      InsertStable(SortBy(init, key), s[|s| - 1], key, k);
      assert s == init + [s[|s| - 1]];
      WithKeyAppend(init, s[|s| - 1], key, k);
    }
  }

  /** An item's key has items in the filter by that key. */
  lemma {:induction false} WithKeyHas(s: seq<TimelineItem>, key: TimelineItem -> int, i: nat)
    requires i < |s|
    ensures WithKey(s, key, key(s[i])) != []
    decreases |s|
  {
    if i < |s| - 1 {
      WithKeyHas(s[..|s| - 1], key, i);
    }
  }

  /** A non-empty filter by k comes from an item whose key is k. */
  lemma {:induction false} WithKeyFrom(s: seq<TimelineItem>, key: TimelineItem -> int, k: int) returns (i: nat)
    requires WithKey(s, key, k) != []
    ensures i < |s| && key(s[i]) == k
    decreases |s|
  {
    if key(s[|s| - 1]) == k {
      i := |s| - 1;
    } else {
      i := WithKeyFrom(s[..|s| - 1], key, k);
    }
  }

  /** In a sorted sequence the last item has the largest key. */
  lemma LastIsLargest(s: seq<TimelineItem>, key: TimelineItem -> int, i: nat)
    requires SortedBy(s, key) && i < |s|
    ensures key(s[i]) <= key(s[|s| - 1])
  {
    if i < |s| - 1 {
      assert key(s[i]) <= key(s[|s| - 1]);
    }
  }

  /** Sorted sequences with the same items of each key end in the same key. */
  lemma SameLastKey(a: seq<TimelineItem>, b: seq<TimelineItem>, key: TimelineItem -> int)
    requires SortedBy(a, key) && SortedBy(b, key) && |a| > 0 && |b| > 0
    requires forall k :: WithKey(a, key, k) == WithKey(b, key, k)
    ensures key(a[|a| - 1]) == key(b[|b| - 1])
  {
    WithKeyHas(a, key, |a| - 1);
    var j := WithKeyFrom(b, key, key(a[|a| - 1]));
    LastIsLargest(b, key, j);
    WithKeyHas(b, key, |b| - 1);
    var i := WithKeyFrom(a, key, key(b[|b| - 1]));
    LastIsLargest(a, key, i);
  }

  /** Such sequences end in the same item, and what precedes it again has
      the same items of each key. */
  lemma DropLast(a: seq<TimelineItem>, b: seq<TimelineItem>, a0: seq<TimelineItem>, b0: seq<TimelineItem>,
                 key: TimelineItem -> int)
    requires |a| > 0 && |b| > 0 && key(a[|a| - 1]) == key(b[|b| - 1])
    requires a0 == a[..|a| - 1] && b0 == b[..|b| - 1]
    requires forall k :: WithKey(a, key, k) == WithKey(b, key, k)
    ensures a[|a| - 1] == b[|b| - 1]
    ensures forall k :: WithKey(a0, key, k) == WithKey(b0, key, k)
  {
    var xa, xb := a[|a| - 1], b[|b| - 1];
    var ka := key(xa);
    var wa, wb := WithKey(a0, key, ka), WithKey(b0, key, ka);
    assert wa + [xa] == wb + [xb] by {
      assert WithKey(a, key, ka) == WithKey(b, key, ka);
    }
    assert |wa| == |wb|;
    assert (wa + [xa])[|wa|] == xa;
    assert (wb + [xb])[|wb|] == xb;
    assert wa == (wa + [xa])[..|wa|];
    assert wb == (wb + [xb])[..|wb|];
    forall k ensures WithKey(a0, key, k) == WithKey(b0, key, k) {
      assert WithKey(a, key, k) == WithKey(b, key, k);
      if k != ka {
        assert WithKey(a, key, k) == WithKey(a0, key, k);
        assert WithKey(b, key, k) == WithKey(b0, key, k);
      }
    }
  }

  /** Two arrangements sorted by key, with the same items of each key in
      the same order, are the same: a stable sort has one result. */
  lemma {:induction false} SortedUnique(a: seq<TimelineItem>, b: seq<TimelineItem>, key: TimelineItem -> int)
    requires SortedBy(a, key) && SortedBy(b, key)
    requires forall k :: WithKey(a, key, k) == WithKey(b, key, k)
    ensures a == b
    decreases |a| + |b|
  {
    if |a| > 0 && |b| > 0 {
      SameLastKey(a, b, key);
      var a0, b0 := a[..|a| - 1], b[..|b| - 1];
      DropLast(a, b, a0, b0, key);
      assert SortedBy(a0, key) && SortedBy(b0, key);
      SortedUnique(a0, b0, key);
      assert a == a0 + [a[|a| - 1]];
      assert b == b0 + [b[|b| - 1]];
    } else if |a| > 0 {
      WithKeyHas(a, key, 0);
      assert false;
    } else if |b| > 0 {
      WithKeyHas(b, key, 0);
      assert false;
    }
  }

  /** The order the sort produces, in the source's terms: `Present` items
      first, and within each class the start year does not increase. */
  lemma SortedMeansPresentFirst(s: seq<TimelineItem>)
    requires SortedBy(s, Key)
    ensures forall i, j :: 0 <= i < j < |s| && HasPresent(s[j]) ==> HasPresent(s[i])
    ensures forall i, j :: 0 <= i < j < |s| && HasPresent(s[i]) == HasPresent(s[j]) ==>
      StartYear(s[i].year) >= StartYear(s[j].year)
  {
  }

  // ---------------------------------------------------------------------------
  // The timeline

  function CertItems(certs: seq<Certificate>): (r: seq<TimelineItem>)
    ensures |r| == (if |certs| > 0 then 1 else 0)
    ensures |certs| > 0 ==> r == [CertItem(certs)]
    ensures forall i :: 0 <= i < |r| ==> r[i].kind == Certification && !HasPresent(r[i])
  {
    if |certs| > 0 then CertItemMeans(certs); [CertItem(certs)] else []
  }

  /** The items before sorting, in the order the source pushes them. */
  function Unsorted(entries: seq<ExperienceEntry>, certs: seq<Certificate>, edus: seq<EducationEntry>,
                    currentYear: int): (r: seq<TimelineItem>)
  {
    var gs := GroupByCompany(entries);
    GroupByCompanyMeans(entries);
    WorkItems(gs, currentYear) + CertItems(certs) + EducationItems(edus)
  }

  /** `createTimelineFromResume`; `currentYear` stands for
      `new Date().getFullYear()`. */
  function CreateTimeline(entries: seq<ExperienceEntry>, certs: seq<Certificate>, edus: seq<EducationEntry>,
                          currentYear: int): (r: seq<TimelineItem>)
    ensures |r| == |Unsorted(entries, certs, edus, currentYear)|
    ensures SortedBy(r, Key)
  {
    SortBy(Unsorted(entries, certs, edus, currentYear), Key)
  }

  /** The timeline is its unsorted items rearranged, items of equal key in
      the order they were pushed. */
  lemma TimelineIsStableSort(entries: seq<ExperienceEntry>, certs: seq<Certificate>, edus: seq<EducationEntry>,
                             currentYear: int, k: int)
    ensures multiset(CreateTimeline(entries, certs, edus, currentYear))
         == multiset(Unsorted(entries, certs, edus, currentYear))
    ensures WithKey(CreateTimeline(entries, certs, edus, currentYear), Key, k)
         == WithKey(Unsorted(entries, certs, edus, currentYear), Key, k)
  {
    SortPermutes(Unsorted(entries, certs, edus, currentYear), Key);
    SortStable(Unsorted(entries, certs, edus, currentYear), Key, k);
  }

  /** A sorted arrangement of s that keeps every key's items in their order
      in s is the result of the sort. */
  lemma StableSortUnique(s: seq<TimelineItem>, t: seq<TimelineItem>, key: TimelineItem -> int)
    requires SortedBy(t, key)
    requires forall k :: WithKey(t, key, k) == WithKey(s, key, k)
    ensures t == SortBy(s, key)
  {
    forall k ensures WithKey(t, key, k) == WithKey(SortBy(s, key), key, k) {
      SortStable(s, key, k);
    }
    SortedUnique(t, SortBy(s, key), key);
  }

  /** Sorted by the comparator is sorted by key. */
  lemma CompareSorted(t: seq<TimelineItem>)
    requires forall i, j :: 0 <= i < j < |t| ==> Compare(t[i], t[j]) <= 0
    ensures SortedBy(t, Key)
  {
    forall i, j | 0 <= i < j < |t| ensures Key(t[i]) <= Key(t[j]) {
      assert Compare(t[i], t[j]) <= 0;
    }
  }

  /** Any arrangement t of items s that the comparator accepts as sorted and
      that keeps the items it ties in their order in s is what the model's
      sort returns: a stable sort with this comparator, as
      `Array.prototype.sort` is, has no other result. */
  lemma ComparatorSortIsUnique(s: seq<TimelineItem>, t: seq<TimelineItem>)
    requires forall i, j :: 0 <= i < j < |t| ==> Compare(t[i], t[j]) <= 0
    requires forall k :: WithKey(t, Key, k) == WithKey(s, Key, k)
    ensures t == SortBy(s, Key)
  {
    CompareSorted(t);
    StableSortUnique(s, t, Key);
  }

  function CountKind(s: seq<TimelineItem>, kind: ItemKind): nat
    decreases |s|
  {
    if |s| == 0 then 0 else CountKind(s[..|s| - 1], kind) + (if s[|s| - 1].kind == kind then 1 else 0)
  }

  lemma {:induction false} CountKindAppend(a: seq<TimelineItem>, b: seq<TimelineItem>, kind: ItemKind)
    ensures CountKind(a + b, kind) == CountKind(a, kind) + CountKind(b, kind)
    decreases |b|
  {
    if |b| > 0 {
      var b0 := b[..|b| - 1];
      assert (a + b)[..|a + b| - 1] == a + b0;
      assert (a + b)[|a + b| - 1] == b[|b| - 1];
      CountKindAppend(a, b0, kind);
    } else {
      assert a + b == a;
    }
  }

  /** In a sequence of items all of one kind, that kind is counted once per
      item and no other kind at all. */
  lemma {:induction false} CountUniform(s: seq<TimelineItem>, same: ItemKind, kind: ItemKind)
    requires forall i :: 0 <= i < |s| ==> s[i].kind == same
    ensures CountKind(s, kind) == (if kind == same then |s| else 0)
    decreases |s|
  {
    if |s| > 0 {
      CountUniform(s[..|s| - 1], same, kind);
    }
  }

  lemma {:induction false} InsertCount(s: seq<TimelineItem>, x: TimelineItem, key: TimelineItem -> int, kind: ItemKind)
    requires SortedBy(s, key)
    ensures CountKind(Insert(s, x, key), kind) == CountKind(s, kind) + (if x.kind == kind then 1 else 0)
    decreases |s|
  {
    if |s| == 0 || key(s[|s| - 1]) <= key(x) {
      assert (s + [x])[..|s|] == s;
    } else {
      var last := s[|s| - 1];
      var init := s[..|s| - 1];
      var front := Insert(init, x, key);
      InsertCount(init, x, key, kind);
      assert (front + [last])[..|front|] == front;
    }
  }

  lemma {:induction false} SortCount(s: seq<TimelineItem>, key: TimelineItem -> int, kind: ItemKind)
    ensures CountKind(SortBy(s, key), kind) == CountKind(s, kind)
    decreases |s|
  {
    if |s| > 0 {
      SortCount(s[..|s| - 1], key, kind);
      InsertCount(SortBy(s[..|s| - 1], key), s[|s| - 1], key, kind);
    }
  }

  /** Counting kinds in the sorted concatenation of work, certification and
      education items. */
  lemma {:induction false} SortedCounts(w: seq<TimelineItem>, c: seq<TimelineItem>, e: seq<TimelineItem>,
                                        key: TimelineItem -> int, kind: ItemKind)
    requires forall i :: 0 <= i < |w| ==> w[i].kind == Work
    requires forall i :: 0 <= i < |c| ==> c[i].kind == Certification
    requires forall i :: 0 <= i < |e| ==> e[i].kind == Education
    ensures CountKind(SortBy(w + c + e, key), kind)
         == match kind
            case Work => |w|
            case Certification => |c|
            case Education => |e|
  {
    CountKindAppend(w + c, e, kind);
    CountKindAppend(w, c, kind);
    CountUniform(w, Work, kind);
    CountUniform(c, Certification, kind);
    CountUniform(e, Education, kind);
    SortCount(w + c + e, key, kind);
  }

  lemma WorkKinds(gs: seq<CompanyGroup>, currentYear: int)
    requires NoEmptyGroup(gs)
    ensures forall i :: 0 <= i < |gs| ==> WorkItems(gs, currentYear)[i].kind == Work
  {
  }

  /** The timeline holds one work item per company, exactly one
      certification item when there are certificates and none otherwise, and
      one education item per education entry. */
  lemma TimelineCounts(entries: seq<ExperienceEntry>, certs: seq<Certificate>, edus: seq<EducationEntry>,
                       currentYear: int, kind: ItemKind)
    ensures CountKind(CreateTimeline(entries, certs, edus, currentYear), kind)
         == match kind
            case Work => |GroupByCompany(entries)|
            case Certification => if |certs| > 0 then 1 else 0
            case Education => |edus|
  {
    var gs := GroupByCompany(entries);
    GroupByCompanyMeans(entries);
    WorkKinds(gs, currentYear);
    SortedCounts(WorkItems(gs, currentYear), CertItems(certs), EducationItems(edus), Key, kind);
  }
}
