/** The two field-extraction strategies of the parser.

    Label-anchored: the regular expression `\{([^}]+)\}\s*%\s*Label` (or
    `[^}]*` for fields that may be empty) searched for its leftmost match,
    either anywhere in a block or only at the start of a trimmed line.

    Positional: `^\{([^}]*)\}`, the first braced value at the start of a line.

    Plus the global `\\item\s*\{([^}]+)\}` scan for bullet items. The regular
    expressions are hand-written scanners; each has a declarative reading
    proved equivalent to it. */
module Fields {
  import opened Text

  predicate NoCloseBrace(v: string) {
    forall t :: 0 <= t < |v| ==> v[t] != '}'
  }

  /** `\s*%\s*Label` right after the closing brace at index j. */
  predicate LabelAfter(s: string, j: nat, name: string)
    requires j < |s|
  {
    var k := SkipSpaces(s, j + 1);
    k < |s| && s[k] == '%' && OccursAt(s, name, SkipSpaces(s, k + 1))
  }

  /** The value captured by `\{([^}]*)\}\s*%\s*Label` when it matches with its
      `{` exactly at index i; with nonEmpty the value must have at least one
      character (`[^}]+`). */
  function LabeledAt(s: string, i: nat, name: string, nonEmpty: bool): (r: Option<string>)
    requires i <= |s|
    ensures r.Some? ==> NoCloseBrace(r.value) && (nonEmpty ==> r.value != [])
  {
    if i < |s| && s[i] == '{' then
      match FindChar(s, '}', i + 1)
      case None => None
      case Some(j) =>
        if nonEmpty && j == i + 1 then None
        else if LabelAfter(s, j, name) then Some(s[i + 1..j])
        else None
    else None
  }

  /** The labels of the resume template all start with a letter, so the
      `\s*` before them cannot give characters back to the label. */
  predicate GoodLabel(name: string) {
    |name| > 0 && !IsSpace(name[0])
  }

  /** Declarative reading of what follows a value: `}` at j, white space up
      to some k, `%` at k, white space up to some m, and the label at m. */
  ghost predicate TailPattern(s: string, j: nat, name: string) {
    exists k: nat, m: nat ::
      && j < |s| && s[j] == '}'
      && SpaceRun(s, j + 1, k) && k < |s| && s[k] == '%'
      && SpaceRun(s, k + 1, m) && OccursAt(s, name, m)
  }

  /** Declarative reading of the whole pattern at index i: `{`, a value free
      of `}`, and the tail. */
  ghost predicate LabelPattern(s: string, i: nat, v: string, name: string) {
    && i < |s| && s[i] == '{'
    && NoCloseBrace(v) && OccursAt(s, v, i + 1)
    && TailPattern(s, i + 1 + |v|, name)
  }

  /** The scanner finds a value at i exactly when the pattern holds there. */
  lemma LabeledAtMeans(s: string, i: nat, name: string, nonEmpty: bool, v: string)
    requires i <= |s| && GoodLabel(name)
    ensures LabeledAt(s, i, name, nonEmpty) == Some(v)
        <==> LabelPattern(s, i, v, name) && (nonEmpty ==> v != [])
  {
    if LabeledAt(s, i, name, nonEmpty) == Some(v) {
      LabeledAtSound(s, i, name, nonEmpty, v);
    }
    if LabelPattern(s, i, v, name) && (nonEmpty ==> v != []) {
      LabeledAtComplete(s, i, name, nonEmpty, v);
    }
  }

  lemma LabeledAtSound(s: string, i: nat, name: string, nonEmpty: bool, v: string)
    requires i <= |s| && GoodLabel(name)
    requires LabeledAt(s, i, name, nonEmpty) == Some(v)
    ensures LabelPattern(s, i, v, name) && (nonEmpty ==> v != [])
  {
    var j := FindChar(s, '}', i + 1).value;
    assert s[i + 1..j] == v;
    TailMeans(s, j, name);
  }

  lemma LabeledAtComplete(s: string, i: nat, name: string, nonEmpty: bool, v: string)
    requires i <= |s| && GoodLabel(name)
    requires LabelPattern(s, i, v, name) && (nonEmpty ==> v != [])
    ensures LabeledAt(s, i, name, nonEmpty) == Some(v)
  {
    var j := i + 1 + |v|;
    TailMeans(s, j, name);
    assert forall t :: i + 1 <= t < j ==> s[t] == v[t - (i + 1)];
    FindCharAt(s, '}', i + 1, j);
    assert s[i + 1..j] == v;
  }

  /** LabelAfter is the scanner for TailPattern. */
  lemma TailMeans(s: string, j: nat, name: string)
    requires GoodLabel(name)
    ensures j < |s| && s[j] == '}' && LabelAfter(s, j, name) <==> TailPattern(s, j, name)
  {
    if j < |s| && s[j] == '}' && LabelAfter(s, j, name) {
      var k := SkipSpaces(s, j + 1);
      var m := SkipSpaces(s, k + 1);
      assert SpaceRun(s, j + 1, k) && SpaceRun(s, k + 1, m);
    }
    if TailPattern(s, j, name) {
      var k: nat, m: nat :| && j < |s| && s[j] == '}'
        && SpaceRun(s, j + 1, k) && k < |s| && s[k] == '%'
        && SpaceRun(s, k + 1, m) && OccursAt(s, name, m);
      SkipSpacesAt(s, j + 1, k);
      assert s[m] == name[0];
      SkipSpacesAt(s, k + 1, m);
    }
  }

  /** The label-anchored pattern at each start index of s. */
  function LabeledFrom(s: string, name: string, nonEmpty: bool): nat -> Option<string> {
    (p: nat) => if p <= |s| then LabeledAt(s, p, name, nonEmpty) else None
  }

  /** The first labeled value anywhere in a block. */
  function FindLabeled(s: string, name: string, nonEmpty: bool): (r: Option<string>)
    ensures r.Some? ==> NoCloseBrace(r.value) && (nonEmpty ==> r.value != [])
  {
    FirstSome(LabeledFrom(s, name, nonEmpty), 0, |s|)
  }

  /** The labeled value of a line, the match anchored at its start (`^`). */
  function LineLabeled(line: string, name: string): Option<string>
  {
    LabeledAt(line, 0, name, true)
  }

  /** `^\{([^}]*)\}`: the braced value that opens a line, if any. */
  function BraceAtStart(line: string): (r: Option<string>)
    ensures r.Some? ==> OccursAt(line, ['{'] + r.value + ['}'], 0) && NoCloseBrace(r.value)
  {
    if |line| > 0 && line[0] == '{' then
      match FindChar(line, '}', 1)
      case None => None
      case Some(j) =>
        OccursChar(line, '{', 0);
        OccursChar(line, '}', j);
        OccursConcat(line, ['{'], line[1..j], 0);
        OccursConcat(line, ['{'] + line[1..j], ['}'], 0);
        Some(line[1..j])
    else None
  }

  /** Any line that opens with a braced value has it found. */
  lemma BraceAtStartComplete(line: string, v: string)
    requires OccursAt(line, ['{'] + v + ['}'], 0) && NoCloseBrace(v)
    ensures BraceAtStart(line) == Some(v)
  {
    OccursConcat(line, ['{'], v, 0);
    OccursConcat(line, ['{'] + v, ['}'], 0);
    OccursChar(line, '{', 0);
    OccursChar(line, '}', |v| + 1);
    OccursElements(line, v, 1);
    assert forall t :: 1 <= t < |v| + 1 ==> line[t] == v[t - 1];
    FindCharAt(line, '}', 1, |v| + 1);
    assert line[1..|v| + 1] == v;
  }

  /** `\\item\s*\{([^}]+)\}` matched with its backslash exactly at index i:
      the captured text and the index just after the closing brace. */
  function ItemAt(s: string, i: nat): (r: Option<(string, nat)>)
    requires i <= |s|
    ensures r.Some? ==> r.value.0 != [] && NoCloseBrace(r.value.0) && i < r.value.1 <= |s|
  {
    if OccursAt(s, "\\item", i) then
      var k := SkipSpaces(s, i + 5);
      if k < |s| && s[k] == '{' then
        match FindChar(s, '}', k + 1)
        case None => None
        case Some(j) => if j == k + 1 then None else Some((s[k + 1..j], j + 1))
      else None
    else None
  }

  /** `\\item\s*\{([^}]+)\}` read at index i with its `{` at k: the text
      `\item`, white space up to k, `{`, a non-empty value v free of `}`,
      then `}`; the match ends at e, just after that brace. */
  predicate ItemShape(s: string, i: nat, k: nat, v: string, e: nat) {
    && OccursAt(s, "\\item", i) && SpaceRun(s, i + 5, k)
    && k < |s| && s[k] == '{'
    && v != [] && NoCloseBrace(v) && OccursAt(s, v, k + 1)
    && k + 1 + |v| < |s| && s[k + 1 + |v|] == '}'
    && e == k + |v| + 2
  }

  /** Declarative reading of the item pattern at i, for some position of
      its `{`. */
  ghost predicate ItemPattern(s: string, i: nat, v: string, e: nat) {
    exists k: nat :: ItemShape(s, i, k, v, e)
  }

  /** The item scanner finds v, ending at e, exactly when the pattern holds
      at i. */
  lemma ItemAtMeans(s: string, i: nat, v: string, e: nat)
    requires i <= |s|
    ensures ItemAt(s, i) == Some((v, e)) <==> ItemPattern(s, i, v, e)
  {
    if ItemAt(s, i) == Some((v, e)) {
      var k := ItemAtSound(s, i, v, e);
    }
    if ItemPattern(s, i, v, e) {
      var k: nat :| ItemShape(s, i, k, v, e);
      ItemAtComplete(s, i, k, v, e);
    }
  }

  lemma ItemAtSound(s: string, i: nat, v: string, e: nat) returns (k: nat)
    requires i <= |s| && ItemAt(s, i) == Some((v, e))
    ensures ItemShape(s, i, k, v, e)
  {
    k := SkipSpaces(s, i + 5);
    var j := FindChar(s, '}', k + 1).value;
    assert v == s[k + 1..j];
    assert SpaceRun(s, i + 5, k);
    assert OccursAt(s, v, k + 1);
  }

  lemma ItemAtComplete(s: string, i: nat, k: nat, v: string, e: nat)
    requires ItemShape(s, i, k, v, e)
    ensures i <= |s| && ItemAt(s, i) == Some((v, e))
  {
    SkipSpacesAt(s, i + 5, k);
    var j := k + 1 + |v|;
    ValueBeforeBrace(s, k + 1, v);
    FindCharAt(s, '}', k + 1, j);
    assert s[k + 1..j] == v;
  }

  /** A value free of `}` occurring at a holds no `}` from a on. */
  lemma ValueBeforeBrace(s: string, a: nat, v: string)
    requires NoCloseBrace(v) && OccursAt(s, v, a)
    ensures forall t :: a <= t < a + |v| ==> s[t] != '}'
  {
    OccursElements(s, v, a);
    forall t | a <= t < a + |v| ensures s[t] != '}' {
      assert s[a + (t - a)] == v[t - a];
    }
  }

  /** The item pattern at each start index of s. */
  function ItemMatch(s: string): nat -> Option<(string, nat)> {
    (p: nat) => if p <= |s| then ItemAt(s, p) else None
  }

  /** Bullet values are non-empty and free of `}`. */
  predicate GoodItem(v: string) {
    v != [] && NoCloseBrace(v)
  }

  lemma ItemMatchFacts(s: string)
    ensures Advancing(ItemMatch(s), |s|)
    ensures forall q: nat :: ItemMatch(s)(q).Some? ==> GoodItem(ItemMatch(s)(q).value.0)
    ensures forall q: nat :: q <= |s| ==> ItemMatch(s)(q) == ItemAt(s, q)
  {
  }

  /** All bullet items from index i on, as a global `match(/…/g)` collects
      them: after a match the scan resumes right after it.
      The source then strips `\item`, the white space, `{` and the final `}`
      from each match, which leaves exactly the captured text. */
  function ItemsFrom(s: string, i: nat): (r: seq<string>)
    requires i <= |s|
    ensures forall t :: 0 <= t < |r| ==> GoodItem(r[t])
  {
    ItemMatchFacts(s);
    CollectAll(ItemMatch(s), i, |s|, GoodItem);
    Collect(ItemMatch(s), i, |s|)
  }

  /** The bullet scan collects nothing exactly when no index from i on
      starts an item match. */
  lemma ItemsFromNone(s: string, i: nat)
    requires i <= |s|
    ensures ItemsFrom(s, i) == [] <==> forall j :: i <= j < |s| ==> ItemAt(s, j).None?
  {
    ItemMatchFacts(s);
    CollectNone(ItemMatch(s), i, |s|);
  }

  /** The bullet scan collects the leftmost item match from i on first, then
      resumes right after it. */
  lemma ItemsFromFirst(s: string, i: nat, j: nat)
    requires i <= j < |s| && ItemAt(s, j).Some?
    requires forall k :: i <= k < j ==> ItemAt(s, k).None?
    ensures ItemsFrom(s, i) == [ItemAt(s, j).value.0] + ItemsFrom(s, ItemAt(s, j).value.1)
  {
    ItemMatchFacts(s);
    CollectFirst(ItemMatch(s), i, j, |s|);
  }

  /** Without the text `\item` there are no bullet items. */
  lemma NoItemsWithoutMarker(s: string, i: nat)
    requires i <= |s|
    requires !Contains(s, "\\item")
    ensures ItemsFrom(s, i) == []
  {
    forall j | i <= j < |s| ensures ItemAt(s, j).None? {
      if OccursAt(s, "\\item", j) {
        OccursContains(s, "\\item", j);
      }
    }
    ItemsFromNone(s, i);
  }
}
