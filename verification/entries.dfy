/** The four entry parsers: experience, skills, certificates and education.
    Each splits its category's text into blocks on the template's command
    and reads one record per block, skipping blocks that lack a required
    field. */
module Entries {
  import opened Text
  import opened Sanitizer
  import opened Fields

  datatype ExperienceEntry = ExperienceEntry(
    title: string,
    company: Option<string>,     // null before the first organization
    location: Option<string>,
    period: string,
    responsibilities: seq<string>)

  datatype SkillCategory = SkillCategory(category: string, technologies: seq<string>)

  datatype Certificate = Certificate(
    title: string,
    issuer: string,
    credentialId: string,
    period: string,
    date: string)

  datatype EducationEntry = EducationEntry(
    degree: string,
    institution: string,
    location: string,
    period: string,
    achievements: seq<string>)

  const EntryCommand: string := "\\cventry"
  const SkillCommand: string := "\\cvskill"
  const HonorCommand: string := "\\cvhonor"

  /** The blocks of a category's text: the pieces after each occurrence of
      the command; the text before the first occurrence is dropped. */
  function Blocks(text: string, command: string): (r: seq<string>)
    requires |command| > 0
    ensures |r| == |Split(text, command)| - 1
    ensures !Contains(text, command) ==> r == []
    ensures forall k :: 0 <= k < |r| ==> !Contains(r[k], command)
    ensures Contains(text, command) ==>
      Join(r, command) == text[IndexFrom(text, command, 0).value + |command|..]
  {
    match IndexFrom(text, command, 0)
    case None => Split(text, command)[1..]
    case Some(i) =>
      SplitAt(text, command, i);
      Split(text, command)[1..]
  }

  function SanitizeAll(xs: seq<string>): (r: seq<string>)
    ensures |r| == |xs|
    ensures forall k :: 0 <= k < |xs| ==> r[k] == Sanitize(xs[k])
  {
    if |xs| == 0 then [] else [Sanitize(xs[0])] + SanitizeAll(xs[1..])
  }

  function TrimAll(xs: seq<string>): (r: seq<string>)
    ensures |r| == |xs|
    ensures forall k :: 0 <= k < |xs| ==> r[k] == Trim(xs[k])
  {
    if |xs| == 0 then [] else [Trim(xs[0])] + TrimAll(xs[1..])
  }

  /** The trimmed lines of a block. */
  function Lines(block: string): seq<string> {
    TrimAll(Split(block, "\n"))
  }

  /** The sanitized bullet items of a block. */
  function Bullets(block: string): seq<string> {
    SanitizeAll(ItemsFrom(block, 0))
  }

  /** The values of the present options, in order: the records of the
      blocks that yield one. */
  function Somes<T(==)>(os: seq<Option<T>>): (r: seq<T>)
    ensures |r| <= |os|
    ensures forall k :: 0 <= k < |r| ==> exists j :: 0 <= j < |os| && os[j] == Some(r[k])
    ensures forall j :: 0 <= j < |os| && os[j].Some? ==> os[j].value in r
    decreases |os|
  {
    if |os| == 0 then []
    else
      var rest := Somes(os[1..]);
      assert forall k :: 0 <= k < |rest| ==> exists j :: 1 <= j < |os| && os[j] == Some(rest[k]) by {
        forall k | 0 <= k < |rest| ensures exists j :: 1 <= j < |os| && os[j] == Some(rest[k]) {
          var j :| 0 <= j < |os[1..]| && os[1..][j] == Some(rest[k]);
          assert os[j + 1] == Some(rest[k]);
        }
      }
      assert forall j :: 1 <= j < |os| && os[j].Some? ==> os[1..][j - 1].value in rest;
      match os[0]
      case Some(v) => [v] + rest
      case None => rest
  }

  /** The values of a concatenation are those of each part, in turn. */
  lemma {:induction false} SomesAppend<T>(a: seq<Option<T>>, b: seq<Option<T>>)
    ensures Somes(a + b) == Somes(a) + Somes(b)
    decreases |a|
  {
    if |a| == 0 {
      assert a + b == b;
    } else {
      assert (a + b)[0] == a[0];
      assert (a + b)[1..] == a[1..] + b;
      SomesAppend(a[1..], b);
    }
  }

  /** What one option contributes: its value, or nothing. */
  function Yield<T>(o: Option<T>): seq<T> {
    match o case Some(v) => [v] case None => []
  }

  /** One more option at the end adds its value, if any, at the end. */
  lemma SomesSnoc<T>(os: seq<Option<T>>, o: Option<T>)
    ensures Somes(os + [o]) == Somes(os) + Yield(o)
  {
    SomesAppend(os, [o]);
    assert [o][1..] == [];
  }

  /** A property of every present value holds of every kept value. */
  lemma SomesAll<T>(os: seq<Option<T>>, p: T -> bool)
    requires forall k :: 0 <= k < |os| && os[k].Some? ==> p(os[k].value)
    ensures forall k :: 0 <= k < |Somes(os)| ==> p(Somes(os)[k])
  {
    var r := Somes(os);
    forall k | 0 <= k < |r| ensures p(r[k]) {
      var j :| 0 <= j < |os| && os[j] == Some(r[k]);
    }
  }

  // ---------------------------------------------------------------------------
  // Experience

  /** The running company/location pair of the experience parser. */
  datatype Carry = Carry(company: Option<string>, location: Option<string>)

  const NoCarry: Carry := Carry(None, None)

  /** The four label-anchored fields and the bullet items of one block.
      Organization and Location are trimmed and read as "" when absent. */
  datatype RoleFields = RoleFields(
    title: Option<string>,
    organization: string,
    location: string,
    date: Option<string>,
    bullets: seq<string>)

  function ReadFields(block: string): (f: RoleFields)
    ensures f.title.Some? ==> f.title.value != []
    ensures f.date.Some? ==> f.date.value != []
  {
    RoleFields(
      FindLabeled(block, "Job title", true),
      match FindLabeled(block, "Organization", false) case Some(v) => Trim(v) case None => "",
      match FindLabeled(block, "Location", false) case Some(v) => Trim(v) case None => "",
      FindLabeled(block, "Date", true),
      Bullets(block))
  }

  function ReadAll(blocks: seq<string>): (r: seq<RoleFields>)
    ensures |r| == |blocks| && forall k :: 0 <= k < |blocks| ==> r[k] == ReadFields(blocks[k])
  {
    seq(|blocks|, k requires 0 <= k < |blocks| => ReadFields(blocks[k]))
  }

  /** A block that yields an entry: it has a Job title and a Date. */
  predicate IsRole(f: RoleFields) {
    f.title.Some? && f.date.Some?
  }

  /** A role block naming a new employer. */
  predicate StartsCompany(f: RoleFields) {
    IsRole(f) && f.organization != ""
  }

  /** The pair after a block: only a role block with a non-empty
      Organization replaces it. */
  function NextCarry(c: Carry, f: RoleFields): Carry {
    if StartsCompany(f) then Carry(Some(f.organization), Some(f.location)) else c
  }

  function RoleEntry(f: RoleFields, c: Carry): ExperienceEntry
    requires IsRole(f)
  {
    ExperienceEntry(Sanitize(f.title.value), c.company, c.location, f.date.value, f.bullets)
  }

  /** The pair never holds an empty company, and company and location are
      null together. */
  predicate GoodCarry(c: Carry) {
    && (c.company.None? <==> c.location.None?)
    && (c.company.Some? ==> c.company.value != "")
  }

  /** Each entry has a non-empty period and a well-formed pair. */
  predicate GoodEntry(e: ExperienceEntry) {
    GoodCarry(Carry(e.company, e.location)) && e.period != []
  }

  /** Fields read from actual text have non-empty titles and dates. */
  predicate WellRead(fs: seq<RoleFields>) {
    forall k :: 0 <= k < |fs| ==> (fs[k].date.Some? ==> fs[k].date.value != [])
  }

  function CountRoles(fs: seq<RoleFields>): nat {
    if |fs| == 0 then 0 else (if IsRole(fs[0]) then 1 else 0) + CountRoles(fs[1..])
  }

  /** The parser's loop: a left fold over the blocks threading the pair. */
  function ExperienceFold(fs: seq<RoleFields>, c: Carry): (r: seq<ExperienceEntry>)
    requires GoodCarry(c) && WellRead(fs)
    ensures |r| == CountRoles(fs)
    ensures forall k :: 0 <= k < |r| ==> GoodEntry(r[k])
    decreases |fs|
  {
    if |fs| == 0 then []
    else
      var f := fs[0];
      var c' := NextCarry(c, f);
      var rest := ExperienceFold(fs[1..], c');
      if IsRole(f) then [RoleEntry(f, c')] + rest else rest
  }

  /** `parseExperience`. */
  function ParseExperience(text: string): (r: seq<ExperienceEntry>)
    ensures |r| == CountRoles(ReadAll(Blocks(text, EntryCommand)))
    ensures forall k :: 0 <= k < |r| ==> GoodEntry(r[k])
  {
    ExperienceFold(ReadAll(Blocks(text, EntryCommand)), NoCarry)
  }

  /** The pair as a function of the blocks seen so far: the Organization and
      Location of the last role block that named an employer. */
  function CarryAfter(fs: seq<RoleFields>): Carry
    decreases |fs|
  {
    if |fs| == 0 then NoCarry
    else
      var last := fs[|fs| - 1];
      if StartsCompany(last) then Carry(Some(last.organization), Some(last.location))
      else CarryAfter(fs[..|fs| - 1])
  }

  /** The entries described without an accumulator: one per role block, its
      company being the pair after the blocks up to and including it. */
  function ExperienceSpec(fs: seq<RoleFields>): seq<ExperienceEntry>
    decreases |fs|
  {
    if |fs| == 0 then []
    else
      var last := fs[|fs| - 1];
      ExperienceSpec(fs[..|fs| - 1])
        + (if IsRole(last) then [RoleEntry(last, CarryAfter(fs))] else [])
  }

  /** One more block at the end: the pair moves on as the fold moves it, and
      the description gains that block's entry, if it is a role. */
  lemma SpecSnoc(pre: seq<RoleFields>, f: RoleFields)
    ensures CarryAfter(pre + [f]) == NextCarry(CarryAfter(pre), f)
    ensures ExperienceSpec(pre + [f])
         == ExperienceSpec(pre) + (if IsRole(f) then [RoleEntry(f, NextCarry(CarryAfter(pre), f))] else [])
  {
    var fs := pre + [f];
    assert fs[..|fs| - 1] == pre;
    assert fs[|fs| - 1] == f;
  }

  lemma ConcatAssoc<T>(a: seq<T>, b: seq<T>, c: seq<T>)
    ensures (a + b) + c == a + (b + c)
  {
  }

  /** One step of the fold: the first block's entry, if it is a role, then
      the fold of the rest from the moved pair. */
  lemma FoldStep(fs: seq<RoleFields>, c: Carry)
    requires GoodCarry(c) && WellRead(fs) && |fs| > 0
    ensures GoodCarry(NextCarry(c, fs[0])) && WellRead(fs[1..])
    ensures ExperienceFold(fs, c)
         == (if IsRole(fs[0]) then [RoleEntry(fs[0], NextCarry(c, fs[0]))] else [])
            + ExperienceFold(fs[1..], NextCarry(c, fs[0]))
  {
  }

  lemma {:induction false} FoldSplits(pre: seq<RoleFields>, post: seq<RoleFields>)
    requires WellRead(post)
    ensures GoodCarry(CarryAfter(pre))
    ensures ExperienceSpec(pre + post) == ExperienceSpec(pre) + ExperienceFold(post, CarryAfter(pre))
    decreases |post|
  {
    CarryAfterGood(pre);
    if |post| > 0 {
      var f := post[0];
      var pre' := pre + [f];
      assert pre' + post[1..] == pre + post;
      SpecSnoc(pre, f);
      FoldStep(post, CarryAfter(pre));
      FoldSplits(pre', post[1..]);
      var c' := CarryAfter(pre');
      var one := if IsRole(f) then [RoleEntry(f, c')] else [];
      ConcatAssoc(ExperienceSpec(pre), one, ExperienceFold(post[1..], c'));
    } else {
      assert pre + post == pre;
    }
  }

  lemma {:induction false} CarryAfterGood(fs: seq<RoleFields>)
    ensures GoodCarry(CarryAfter(fs))
    decreases |fs|
  {
    if |fs| > 0 {
      CarryAfterGood(fs[..|fs| - 1]);
    }
  }

  /** The fold computes the accumulator-free description. */
  lemma ParseExperienceMatchesSpec(text: string)
    ensures ParseExperience(text) == ExperienceSpec(ReadAll(Blocks(text, EntryCommand)))
  {
    var fs := ReadAll(Blocks(text, EntryCommand));
    FoldSplits([], fs);
    assert [] + fs == fs;
  }

  /** A block that names no employer leaves the pair as it was. */
  lemma CarryAfterSkips(fs: seq<RoleFields>)
    requires |fs| > 0 && !StartsCompany(fs[|fs| - 1])
    ensures CarryAfter(fs) == CarryAfter(fs[..|fs| - 1])
  {
  }

  /** Before any role block names an employer the company is null, and
      afterwards it never is. */
  lemma {:induction false} NullCompanyUntilFirstOrganization(fs: seq<RoleFields>)
    ensures CarryAfter(fs).company.None?
        <==> forall k :: 0 <= k < |fs| ==> !StartsCompany(fs[k])
    decreases |fs|
  {
    if |fs| > 0 {
      var init := fs[..|fs| - 1];
      NullCompanyUntilFirstOrganization(init);
      assert forall k :: 0 <= k < |init| ==> init[k] == fs[k];
      if !StartsCompany(fs[|fs| - 1]) {
        CarryAfterSkips(fs);
      }
    }
  }

  /** Continuation entries: after a role block naming an employer, blocks
      that name none keep its company and location. */
  lemma {:induction false} CarryForward(pre: seq<RoleFields>, f: RoleFields, mid: seq<RoleFields>)
    requires StartsCompany(f)
    requires forall k :: 0 <= k < |mid| ==> !StartsCompany(mid[k])
    ensures CarryAfter(pre + [f] + mid) == Carry(Some(f.organization), Some(f.location))
    decreases |mid|
  {
    var all := pre + [f] + mid;
    if |mid| == 0 {
      assert all == pre + [f];
    } else {
      var init := mid[..|mid| - 1];
      assert all[|all| - 1] == mid[|mid| - 1];
      CarryAfterSkips(all);
      assert all[..|all| - 1] == pre + [f] + init;
      CarryForward(pre, f, init);
    }
  }

  // ---------------------------------------------------------------------------
  // Skills

  /** The skills loop's two variables. */
  datatype SkillScan = SkillScan(category: string, skills: string)

  /** What the two anchored patterns capture on one trimmed line. */
  datatype LineMatch = LineMatch(category: Option<string>, skills: Option<string>)

  function ReadLine(line: string): LineMatch {
    LineMatch(LineLabeled(line, "Category"), LineLabeled(line, "Skills"))
  }

  function ReadLines(lines: seq<string>): (r: seq<LineMatch>)
    ensures |r| == |lines| && forall k :: 0 <= k < |lines| ==> r[k] == ReadLine(lines[k])
  {
    seq(|lines|, k requires 0 <= k < |lines| => ReadLine(lines[k]))
  }

  /** The per-line loop: a Category line sets the sanitized category, a Skills
      line sets the raw skills text; a later match overwrites an earlier one. */
  function ScanSkillLines(ms: seq<LineMatch>, acc: SkillScan): SkillScan
    decreases |ms|
  {
    if |ms| == 0 then acc
    else
      var cat := match ms[0].category
        case Some(v) => Sanitize(v)
        case None => acc.category;
      var sk := match ms[0].skills
        case Some(v) => v
        case None => acc.skills;
      ScanSkillLines(ms[1..], SkillScan(cat, sk))
  }

  function Categories(ms: seq<LineMatch>): (r: seq<Option<string>>)
    ensures |r| == |ms| && forall k :: 0 <= k < |ms| ==> r[k] == ms[k].category
  {
    seq(|ms|, k requires 0 <= k < |ms| => ms[k].category)
  }

  function SkillsColumn(ms: seq<LineMatch>): (r: seq<Option<string>>)
    ensures |r| == |ms| && forall k :: 0 <= k < |ms| ==> r[k] == ms[k].skills
  {
    seq(|ms|, k requires 0 <= k < |ms| => ms[k].skills)
  }

  /** The last present value, if any. */
  function LastSome(os: seq<Option<string>>): (r: Option<string>)
    ensures r.None? ==> forall k :: 0 <= k < |os| ==> os[k].None?
    ensures r.Some? ==> exists k :: 0 <= k < |os| && os[k] == r
                          && forall j :: k < j < |os| ==> os[j].None?
    decreases |os|
  {
    if |os| == 0 then None
    else match LastSome(os[1..])
      case Some(v) =>
        var k :| 0 <= k < |os[1..]| && os[1..][k] == Some(v)
          && forall j :: k < j < |os[1..]| ==> os[1..][j].None?;
        assert os[k + 1] == Some(v);
        Some(v)
      case None => os[0]
  }

  function OrElse(o: Option<string>, d: string): string {
    match o
    case Some(v) => v
    case None => d
  }

  function SanitizeOpt(o: Option<string>): Option<string> {
    match o
    case Some(v) => Some(Sanitize(v))
    case None => None
  }

  /** The loop leaves in each variable the last match, or its start value. */
  lemma {:induction false} ScanKeepsLastMatch(ms: seq<LineMatch>, acc: SkillScan)
    ensures ScanSkillLines(ms, acc)
         == SkillScan(OrElse(SanitizeOpt(LastSome(Categories(ms))), acc.category),
                      OrElse(LastSome(SkillsColumn(ms)), acc.skills))
    decreases |ms|
  {
    if |ms| > 0 {
      var cat := match ms[0].category
        case Some(v) => Sanitize(v)
        case None => acc.category;
      var sk := match ms[0].skills
        case Some(v) => v
        case None => acc.skills;
      ScanKeepsLastMatch(ms[1..], SkillScan(cat, sk));
      assert Categories(ms)[1..] == Categories(ms[1..]);
      assert SkillsColumn(ms)[1..] == SkillsColumn(ms[1..]);
    }
  }

  /** At most one piece per element, in order. */
  predicate IsSubsequence(a: seq<string>, b: seq<string>)
    decreases |b|
  {
    if |a| == 0 then true
    else if |b| == 0 then false
    else if a[0] == b[0] then IsSubsequence(a[1..], b[1..])
    else IsSubsequence(a, b[1..])
  }

  /** `filter(skill => skill.length > 0)`. */
  function KeepNonEmpty(xs: seq<string>): (r: seq<string>)
    ensures |r| <= |xs|
    ensures forall k :: 0 <= k < |r| ==> r[k] != []
    ensures IsSubsequence(r, xs)
    ensures forall k :: 0 <= k < |xs| && xs[k] != [] ==> xs[k] in r
    ensures forall x :: multiset(r)[x] == (if x == [] then 0 else multiset(xs)[x])
    decreases |xs|
  {
    if |xs| == 0 then []
    else
      assert xs == [xs[0]] + xs[1..];
      if xs[0] == [] then KeepNonEmpty(xs[1..])
      else
        var rest := KeepNonEmpty(xs[1..]);
        assert forall k :: 1 <= k < |xs| && xs[k] != [] ==> xs[1..][k - 1] in rest;
        [xs[0]] + rest
  }

  function CleanSkills(xs: seq<string>): (r: seq<string>)
    ensures |r| == |xs|
    ensures forall k :: 0 <= k < |xs| ==> r[k] == CleanSkill(xs[k])
  {
    if |xs| == 0 then [] else [CleanSkill(xs[0])] + CleanSkills(xs[1..])
  }

  /** The technologies of a Skills field: its comma-separated pieces, each
      trimmed then unescaped, the empty ones dropped. */
  function Technologies(skills: string): (r: seq<string>)
    ensures |r| <= |Split(skills, ",")|
    ensures forall k :: 0 <= k < |r| ==> r[k] != []
  {
    KeepNonEmpty(CleanSkills(Split(skills, ",")))
  }

  /** One `\cvskill` block: emitted only when the last Category line gives a
      non-empty sanitized name and some Skills line was found. */
  function ParseSkillBlock(block: string): (r: Option<SkillCategory>)
    ensures r.Some? ==> r.value.category != [] && forall t :: 0 <= t < |r.value.technologies| ==> r.value.technologies[t] != []
  {
    var scan := ScanSkillLines(ReadLines(Lines(block)), SkillScan("", ""));
    if scan.category != "" && scan.skills != "" then
      Some(SkillCategory(scan.category, Technologies(scan.skills)))
    else None
  }

  /** A block yields a category exactly when its last `Category` line has a
      non-empty sanitized value and some line carries `Skills`; the values
      kept are those of the last such lines. */
  lemma ParseSkillBlockMeans(block: string)
    ensures var ms := ReadLines(Lines(block));
      && (ParseSkillBlock(block).Some?
          <==> && SanitizeOpt(LastSome(Categories(ms))).Some?
               && SanitizeOpt(LastSome(Categories(ms))).value != ""
               && LastSome(SkillsColumn(ms)).Some?)
      && (ParseSkillBlock(block).Some? ==>
            ParseSkillBlock(block).value.category == SanitizeOpt(LastSome(Categories(ms))).value)
      && (ParseSkillBlock(block).Some? ==>
            ParseSkillBlock(block).value.technologies == Technologies(LastSome(SkillsColumn(ms)).value))
  {
    ScanKeepsLastMatch(ReadLines(Lines(block)), SkillScan("", ""));
  }

  /** A category as the parser emits it: a name and no empty technology. */
  predicate GoodCategory(c: SkillCategory) {
    c.category != [] && forall t :: 0 <= t < |c.technologies| ==> c.technologies[t] != []
  }

  function SkillBlocks(blocks: seq<string>): (r: seq<Option<SkillCategory>>)
    ensures |r| == |blocks| && forall k :: 0 <= k < |blocks| ==> r[k] == ParseSkillBlock(blocks[k])
    ensures forall k :: 0 <= k < |r| && r[k].Some? ==> GoodCategory(r[k].value)
  {
    seq(|blocks|, k requires 0 <= k < |blocks| => ParseSkillBlock(blocks[k]))
  }

  /** `parseSkills`: one category per block that yields one, in block
      order. */
  function ParseSkills(text: string): (r: seq<SkillCategory>)
    ensures |r| <= |Blocks(text, SkillCommand)|
    ensures forall k :: 0 <= k < |r| ==> GoodCategory(r[k])
    ensures r == SkillsOf(Blocks(text, SkillCommand))
  {
    var os := SkillBlocks(Blocks(text, SkillCommand));
    SomesAll(os, GoodCategory);
    SkillsOf(Blocks(text, SkillCommand))
  }

  /** The categories of a list of skills blocks. */
  function SkillsOf(blocks: seq<string>): seq<SkillCategory> {
    Somes(SkillBlocks(blocks))
  }

  /** No blocks give no categories; one more block appends its category,
      if it yields one, after those of the blocks before it. */
  lemma SkillsOfSnoc(blocks: seq<string>, b: string)
    ensures SkillsOf([]) == []
    ensures SkillsOf(blocks + [b]) == SkillsOf(blocks) + Yield(ParseSkillBlock(b))
  {
    assert SkillBlocks(blocks + [b]) == SkillBlocks(blocks) + [ParseSkillBlock(b)];
    SomesSnoc(SkillBlocks(blocks), ParseSkillBlock(b));
  }

  // ---------------------------------------------------------------------------
  // Certificates

  /** The trimmed braced values that open the lines, in line order. */
  function BraceParts(lines: seq<string>): (r: seq<string>)
    ensures |r| <= |lines|
    decreases |lines|
  {
    if |lines| == 0 then [] else BraceValue(lines[0]) + BraceParts(lines[1..])
  }

  /** The trimmed braced value that opens one line, if any. */
  function BraceValue(line: string): seq<string> {
    match BraceAtStart(line) case Some(v) => [Trim(v)] case None => []
  }

  /** The values of a concatenation of lines are those of each part, in
      turn. */
  lemma {:induction false} BracePartsAppend(a: seq<string>, b: seq<string>)
    ensures BraceParts(a + b) == BraceParts(a) + BraceParts(b)
    decreases |a|
  {
    if |a| == 0 {
      assert a + b == b;
    } else {
      var ab := a + b;
      assert ab[0] == a[0];
      assert ab[1..] == a[1..] + b;
      BracePartsAppend(a[1..], b);
      var head := BraceValue(a[0]);
      ConcatAssoc(head, BraceParts(a[1..]), BraceParts(b));
    }
  }

  /** A single line gives its trimmed braced value, if it has one. */
  lemma BracePartsOne(l: string)
    ensures BraceParts([l]) == match BraceAtStart(l) case Some(v) => [Trim(v)] case None => []
  {
    assert [l][1..] == [];
  }

  /** Positional mapping of a block's values to a certificate. */
  function CertificateOf(parts: seq<string>): (r: Option<Certificate>)
    ensures r.Some? <==> |parts| >= 3
    ensures r.Some? ==> r.value.date == r.value.period
    ensures r.Some? ==> r.value.title == parts[0] && r.value.issuer == parts[1]
    ensures |parts| >= 4 ==> r.value.credentialId == parts[2] && r.value.period == parts[3]
    ensures |parts| == 3 ==> r.value.credentialId == "" && r.value.period == parts[2]
  {
    if |parts| >= 4 then Some(Certificate(parts[0], parts[1], parts[2], parts[3], parts[3]))
    else if |parts| == 3 then Some(Certificate(parts[0], parts[1], "", parts[2], parts[2]))
    else None
  }

  function CertificateBlocks(blocks: seq<string>): (r: seq<Option<Certificate>>)
    ensures |r| == |blocks| && forall k :: 0 <= k < |blocks| ==> r[k] == CertificateOf(BraceParts(Lines(blocks[k])))
    ensures forall k :: 0 <= k < |r| && r[k].Some? ==> r[k].value.date == r[k].value.period
  {
    seq(|blocks|, k requires 0 <= k < |blocks| => CertificateOf(BraceParts(Lines(blocks[k]))))
  }

  /** `parseCertificates`: one certificate per block with at least three
      values, in block order. */
  function ParseCertificates(text: string): (r: seq<Certificate>)
    ensures |r| <= |Blocks(text, HonorCommand)|
    ensures forall k :: 0 <= k < |r| ==> r[k].date == r[k].period
    ensures r == CertificatesOf(Blocks(text, HonorCommand))
  {
    var os := CertificateBlocks(Blocks(text, HonorCommand));
    SomesAll(os, (c: Certificate) => c.date == c.period);
    CertificatesOf(Blocks(text, HonorCommand))
  }

  /** The certificates of a list of honor blocks. */
  function CertificatesOf(blocks: seq<string>): seq<Certificate> {
    Somes(CertificateBlocks(blocks))
  }

  /** No blocks give no certificates; one more block appends its
      certificate, if it yields one, after those of the blocks before it. */
  lemma CertificatesOfSnoc(blocks: seq<string>, b: string)
    ensures CertificatesOf([]) == []
    ensures CertificatesOf(blocks + [b])
         == CertificatesOf(blocks) + Yield(CertificateOf(BraceParts(Lines(b))))
  {
    assert CertificateBlocks(blocks + [b]) == CertificateBlocks(blocks) + [CertificateOf(BraceParts(Lines(b)))];
    SomesSnoc(CertificateBlocks(blocks), CertificateOf(BraceParts(Lines(b))));
  }

  // ---------------------------------------------------------------------------
  // Education

  /** The four label-anchored fields (all `[^}]+`) and the bullet items of
      one block. */
  datatype DegreeFields = DegreeFields(
    degree: Option<string>,
    institution: Option<string>,
    location: Option<string>,
    date: Option<string>,
    bullets: seq<string>)

  function ReadDegree(block: string): DegreeFields {
    DegreeFields(FindLabeled(block, "Degree", true), FindLabeled(block, "Institution", true),
                 FindLabeled(block, "Location", true), FindLabeled(block, "Date", true), Bullets(block))
  }

  function ReadDegrees(blocks: seq<string>): (r: seq<DegreeFields>)
    ensures |r| == |blocks| && forall k :: 0 <= k < |blocks| ==> r[k] == ReadDegree(blocks[k])
  {
    seq(|blocks|, k requires 0 <= k < |blocks| => ReadDegree(blocks[k]))
  }

  /** A block that yields an entry: Degree, Institution and Date present. */
  predicate IsDegree(f: DegreeFields) {
    f.degree.Some? && f.institution.Some? && f.date.Some?
  }

  /** A qualifying block without Location: the source dereferences null. */
  predicate Throws(f: DegreeFields) {
    IsDegree(f) && f.location.None?
  }

  const NullLocation: string := "Cannot read properties of null (reading '1')"

  function EducationOf(f: DegreeFields): EducationEntry
    requires IsDegree(f) && !Throws(f)
  {
    EducationEntry(Trim(f.degree.value), Trim(f.institution.value), Trim(f.location.value),
                   Trim(f.date.value), f.bullets)
  }

  function CountDegrees(fs: seq<DegreeFields>): nat {
    if |fs| == 0 then 0 else (if IsDegree(fs[0]) then 1 else 0) + CountDegrees(fs[1..])
  }

  /** The loop over the blocks: the first qualifying block without Location
      aborts it; otherwise one entry per qualifying block. */
  function EducationBlocks(fs: seq<DegreeFields>): (r: Result<seq<EducationEntry>>)
    ensures r.Err? <==> exists k :: 0 <= k < |fs| && Throws(fs[k])
    ensures r.Ok? ==> |r.value| == CountDegrees(fs)
    decreases |fs|
  {
    if |fs| == 0 then Ok([])
    else
      var f := fs[0];
      assert forall k :: 1 <= k < |fs| ==> fs[k] == fs[1..][k - 1];
      if Throws(f) then Err(NullLocation)
      else match EducationBlocks(fs[1..])
        case Err(m) => Err(m)
        case Ok(rest) => Ok((if IsDegree(f) then [EducationOf(f)] else []) + rest)
  }

  /** A block whose entry the loop pushes: Degree, Institution, Date and
      Location all present. */
  predicate Yields(f: DegreeFields) {
    IsDegree(f) && f.location.Some?
  }

  /** Reference reading of the loop: the entry of every block that has all
      four fields, in block order, built from the last block back and
      without an accumulated result. */
  function EducationSpec(fs: seq<DegreeFields>): seq<EducationEntry>
    decreases |fs|
  {
    if |fs| == 0 then []
    else
      var last := fs[|fs| - 1];
      EducationSpec(fs[..|fs| - 1]) + (if Yields(last) then [EducationOf(last)] else [])
  }

  lemma {:induction false} EducationSpecAppend(a: seq<DegreeFields>, b: seq<DegreeFields>)
    ensures EducationSpec(a + b) == EducationSpec(a) + EducationSpec(b)
    decreases |b|
  {
    if |b| > 0 {
      var b' := b[..|b| - 1];
      assert (a + b)[..|a + b| - 1] == a + b';
      assert (a + b)[|a + b| - 1] == b[|b| - 1];
      EducationSpecAppend(a, b');
    } else {
      assert a + b == a;
    }
  }

  lemma EducationSpecCons(f: DegreeFields, rest: seq<DegreeFields>)
    ensures EducationSpec([f] + rest) == (if Yields(f) then [EducationOf(f)] else []) + EducationSpec(rest)
  {
    EducationSpecAppend([f], rest);
    assert [f][..0] == [];
  }

  /** The loop computes the reference reading when no block throws, and
      fails with the null-dereference message when one does. */
  lemma {:induction false} EducationBlocksMeans(fs: seq<DegreeFields>)
    ensures (forall k :: 0 <= k < |fs| ==> !Throws(fs[k])) ==> EducationBlocks(fs) == Ok(EducationSpec(fs))
    ensures (exists k :: 0 <= k < |fs| && Throws(fs[k])) ==> EducationBlocks(fs) == Err(NullLocation)
    decreases |fs|
  {
    if |fs| > 0 {
      var rest := fs[1..];
      assert fs == [fs[0]] + rest;
      assert forall k :: 0 <= k < |rest| ==> rest[k] == fs[k + 1];
      EducationBlocksMeans(rest);
      if forall k :: 0 <= k < |fs| ==> !Throws(fs[k]) {
        assert !Throws(fs[0]);
        EducationSpecCons(fs[0], rest);
      } else if !Throws(fs[0]) {
        var k :| 0 <= k < |fs| && Throws(fs[k]);
        assert Throws(rest[k - 1]);
      }
    }
  }

  /** One entry per qualifying block. */
  lemma EducationSpecLength(fs: seq<DegreeFields>)
    requires forall k :: 0 <= k < |fs| ==> !Throws(fs[k])
    ensures |EducationSpec(fs)| == CountDegrees(fs)
  {
    EducationBlocksMeans(fs);
  }

  /** The entry of the qualifying block at index k sits at the position
      given by the number of qualifying blocks before it. */
  lemma EducationSpecAt(fs: seq<DegreeFields>, k: nat)
    requires forall j :: 0 <= j < |fs| ==> !Throws(fs[j])
    requires k < |fs| && IsDegree(fs[k])
    ensures CountDegrees(fs[..k]) < |EducationSpec(fs)|
    ensures EducationSpec(fs)[CountDegrees(fs[..k])] == EducationOf(fs[k])
  {
    var pre, post := fs[..k], fs[k + 1..];
    assert fs == pre + ([fs[k]] + post);
    EducationSpecAppend(pre, [fs[k]] + post);
    EducationSpecCons(fs[k], post);
    EducationSpecLength(pre);
  }

  /** `parseEducation`: fails exactly when a qualifying block has no
      Location; otherwise one entry per qualifying block. */
  function ParseEducation(text: string): (r: Result<seq<EducationEntry>>)
    ensures var fs := ReadDegrees(Blocks(text, EntryCommand));
      && (r.Err? <==> exists k :: 0 <= k < |fs| && Throws(fs[k]))
      && (r.Ok? ==> |r.value| == CountDegrees(fs))
  {
    EducationBlocks(ReadDegrees(Blocks(text, EntryCommand)))
  }

  /** `parseEducation` yields the reference reading of its blocks, or the
      null-dereference message. */
  lemma ParseEducationMeans(text: string)
    ensures var fs := ReadDegrees(Blocks(text, EntryCommand));
      && ((forall k :: 0 <= k < |fs| ==> !Throws(fs[k])) ==> ParseEducation(text) == Ok(EducationSpec(fs)))
      && ((exists k :: 0 <= k < |fs| && Throws(fs[k])) ==> ParseEducation(text) == Err(NullLocation))
  {
    EducationBlocksMeans(ReadDegrees(Blocks(text, EntryCommand)));
  }

  /** When nothing throws, the qualifying block at index k yields, at the
      position of its rank among the qualifying blocks, an entry holding its
      trimmed fields and its sanitized bullet items. */
  lemma ParseEducationAt(text: string, k: nat)
    requires var fs := ReadDegrees(Blocks(text, EntryCommand));
      && (forall j :: 0 <= j < |fs| ==> !Throws(fs[j]))
      && k < |fs| && IsDegree(fs[k])
    ensures var bs := Blocks(text, EntryCommand); var fs := ReadDegrees(bs); var r := ParseEducation(text);
      && r.Ok? && CountDegrees(fs[..k]) < |r.value|
      && var e := r.value[CountDegrees(fs[..k])];
      && e.degree == Trim(FindLabeled(bs[k], "Degree", true).value)
      && e.institution == Trim(FindLabeled(bs[k], "Institution", true).value)
      && e.location == Trim(FindLabeled(bs[k], "Location", true).value)
      && e.period == Trim(FindLabeled(bs[k], "Date", true).value)
      && e.achievements == SanitizeAll(ItemsFrom(bs[k], 0))
  {
    var fs := ReadDegrees(Blocks(text, EntryCommand));
    ParseEducationMeans(text);
    EducationSpecAt(fs, k);
  }
}
