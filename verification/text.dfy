/** Character classes, trimming, searching, splitting and decimal conversion,
    each with the meaning the corresponding JavaScript string operation has
    in the resume parser (`trim`, `includes`, `split`, `\s`, `\d`, `\w`,
    `parseInt` of four digits, template-literal printing of integers). */
module Text {

  datatype Option<+T> = None | Some(value: T)

  /** The outcome of a call that may throw. */
  datatype Result<+T> = Ok(value: T) | Err(message: string)

  /** White space as both JavaScript's `\s` class and `String.prototype.trim`
      understand it: the ECMAScript WhiteSpace and LineTerminator code points. */
  predicate IsSpace(c: char) {
    || c == '\t' || c == '\n' || c == '\U{000B}' || c == '\U{000C}' || c == '\r' || c == ' '
    || c == '\U{00A0}' || c == '\U{1680}' || ('\U{2000}' <= c <= '\U{200A}')
    || c == '\U{2028}' || c == '\U{2029}' || c == '\U{202F}' || c == '\U{205F}'
    || c == '\U{3000}' || c == '\U{FEFF}'
  }

  /** JavaScript's `\d`: the ASCII digits only. */
  predicate IsDigit(c: char) {
    '0' <= c <= '9'
  }

  /** JavaScript's `\w`: `[A-Za-z0-9_]`. */
  predicate IsWordChar(c: char) {
    ('a' <= c <= 'z') || ('A' <= c <= 'Z') || IsDigit(c) || c == '_'
  }

  predicate AllSpace(s: string) {
    forall i :: 0 <= i < |s| ==> IsSpace(s[i])
  }

  predicate AllDigits(s: string) {
    forall i :: 0 <= i < |s| ==> IsDigit(s[i])
  }

  // ---------------------------------------------------------------------------
  // Trimming

  /** Number of white-space characters at the front of s. */
  function LeadingSpace(s: string): (n: nat)
    ensures n <= |s|
    ensures forall i :: 0 <= i < n ==> IsSpace(s[i])
    ensures n == |s| || !IsSpace(s[n])
  {
    if |s| > 0 && IsSpace(s[0]) then 1 + LeadingSpace(s[1..]) else 0
  }

  /** Number of white-space characters at the back of s. */
  function TrailingSpace(s: string): (n: nat)
    ensures n <= |s|
    ensures forall i :: |s| - n <= i < |s| ==> IsSpace(s[i])
    ensures n == |s| || !IsSpace(s[|s| - n - 1])
  {
    if |s| > 0 && IsSpace(s[|s| - 1]) then 1 + TrailingSpace(s[..|s| - 1]) else 0
  }

  /** `String.prototype.trim`: s without its leading and trailing white space. */
  function Trim(s: string): (r: string)
    ensures |r| <= |s|
    ensures r == [] || (!IsSpace(r[0]) && !IsSpace(r[|r| - 1]))
    ensures LeadingSpace(s) + |r| <= |s|
    ensures r == s[LeadingSpace(s)..LeadingSpace(s) + |r|]
    ensures AllSpace(s[..LeadingSpace(s)]) && AllSpace(s[LeadingSpace(s) + |r|..])
  {
    var lo := LeadingSpace(s);
    var rest := s[lo..];
    var n := TrailingSpace(rest);
    assert rest[..|rest| - n] == s[lo..lo + (|rest| - n)];
    rest[..|rest| - n]
  }

  /** A string that neither starts nor ends with white space is its own trim;
      in particular trimming twice is trimming once. */
  lemma TrimFixed(s: string)
    requires s == [] || (!IsSpace(s[0]) && !IsSpace(s[|s| - 1]))
    ensures Trim(s) == s
  {
    if s != [] {
      assert LeadingSpace(s) == 0;
      assert TrailingSpace(s) == 0;
    }
  }

  lemma TrimIdempotent(s: string)
    ensures Trim(Trim(s)) == Trim(s)
  {
    TrimFixed(Trim(s));
  }

  // ---------------------------------------------------------------------------
  // Searching

  /** d occurs in s starting at index j. */
  predicate OccursAt(s: string, d: string, j: int) {
    0 <= j && j + |d| <= |s| && forall t :: 0 <= t < |d| ==> s[j + t] == d[t]
  }

  /** The leftmost occurrence of d in s at or after index i (`indexOf(d, i)`). */
  function IndexFrom(s: string, d: string, i: nat): (r: Option<nat>)
    requires i <= |s|
    ensures r.Some? ==> i <= r.value && OccursAt(s, d, r.value)
    ensures r.Some? ==> forall j :: i <= j < r.value ==> !OccursAt(s, d, j)
    ensures r.None? ==> forall j :: i <= j ==> !OccursAt(s, d, j)
    decreases |s| - i
  {
    if OccursAt(s, d, i) then Some(i)
    else if i == |s| then None
    else IndexFrom(s, d, i + 1)
  }

  /** `String.prototype.includes`. */
  predicate Contains(s: string, d: string) {
    IndexFrom(s, d, 0).Some?
  }

  lemma OccursContains(s: string, d: string, j: int)
    requires OccursAt(s, d, j)
    ensures Contains(s, d)
  {
  }

  /** An occurrence inside a slice of s is an occurrence in s. */
  lemma ContainsSlice(s: string, lo: nat, hi: nat, d: string)
    requires lo <= hi <= |s|
    requires Contains(s[lo..hi], d)
    ensures Contains(s, d)
  {
    var j := IndexFrom(s[lo..hi], d, 0).value;
    var inner := s[lo..hi][j..j + |d|];
    var outer := s[lo + j..lo + j + |d|];
    assert forall t :: 0 <= t < |d| ==> outer[t] == inner[t];
    assert outer == d;
    OccursContains(s, d, lo + j);
  }

  /** What the trimmed text contains, the text contains. */
  lemma TrimContains(s: string, d: string)
    requires Contains(Trim(s), d)
    ensures Contains(s, d)
  {
    ContainsSlice(s, LeadingSpace(s), LeadingSpace(s) + |Trim(s)|, d);
  }

  lemma OccursChar(s: string, c: char, i: int)
    ensures OccursAt(s, [c], i) <==> 0 <= i < |s| && s[i] == c
  {
    assert [c][0] == c;
  }

  /** An occurrence of a + b is an occurrence of a followed by one of b. */
  lemma OccursConcat(s: string, a: string, b: string, i: int)
    ensures OccursAt(s, a + b, i) <==> OccursAt(s, a, i) && OccursAt(s, b, i + |a|)
  {
    if OccursAt(s, a, i) && OccursAt(s, b, i + |a|) {
      assert s[i..i + |a| + |b|] == s[i..i + |a|] + s[i + |a|..i + |a| + |b|];
    }
    if OccursAt(s, a + b, i) {
      var whole := s[i..i + |a| + |b|];
      assert whole[..|a|] == s[i..i + |a|];
      assert whole[|a|..] == s[i + |a|..i + |a| + |b|];
      assert (a + b)[..|a|] == a;
      assert (a + b)[|a|..] == b;
    }
  }

  lemma OccursElements(s: string, d: string, i: int)
    requires OccursAt(s, d, i)
    ensures forall t :: 0 <= t < |d| ==> s[i + t] == d[t]
  {
    forall t | 0 <= t < |d|
      ensures s[i + t] == d[t]
    {
      assert s[i..i + |d|][t] == s[i + t];
    }
  }

  /** The first index at or after i holding c. */
  function FindChar(s: string, c: char, i: nat): (r: Option<nat>)
    requires i <= |s|
    ensures r.Some? ==> i <= r.value < |s| && s[r.value] == c
    ensures r.Some? ==> forall k :: i <= k < r.value ==> s[k] != c
    ensures r.None? ==> forall k :: i <= k < |s| ==> s[k] != c
    decreases |s| - i
  {
    if i == |s| then None
    else if s[i] == c then Some(i)
    else FindChar(s, c, i + 1)
  }

  /** The first index at or after i that is not white space (or |s|). */
  function SkipSpaces(s: string, i: nat): (r: nat)
    requires i <= |s|
    ensures i <= r <= |s|
    ensures forall k :: i <= k < r ==> IsSpace(s[k])
    ensures r == |s| || !IsSpace(s[r])
    decreases |s| - i
  {
    if i < |s| && IsSpace(s[i]) then SkipSpaces(s, i + 1) else i
  }

  /** Indices a to b of s are all white space. */
  predicate SpaceRun(s: string, a: nat, b: nat) {
    a <= b <= |s| && forall t :: a <= t < b ==> IsSpace(s[t])
  }

  /** FindChar lands on x when x holds c and nothing before it does. */
  lemma FindCharAt(s: string, c: char, i: nat, x: nat)
    requires i <= x < |s| && s[x] == c
    requires forall k :: i <= k < x ==> s[k] != c
    ensures FindChar(s, c, i) == Some(x)
  {
  }

  /** SkipSpaces lands on x when [i, x) is white space and x is not. */
  lemma SkipSpacesAt(s: string, i: nat, x: nat)
    requires i <= x <= |s|
    requires forall k :: i <= k < x ==> IsSpace(s[k])
    requires x == |s| || !IsSpace(s[x])
    ensures SkipSpaces(s, i) == x
  {
  }

  // ---------------------------------------------------------------------------
  // Leftmost match

  /** What `at` yields at the least index from i to n where it yields
      something. With `at(j)` the match of a pattern starting exactly at j,
      this is the pattern's leftmost match, as `String.prototype.match`
      finds it. */
  function FirstSome<T>(at: nat -> Option<T>, i: nat, n: nat): (r: Option<T>)
    requires i <= n
    ensures r.Some? ==> exists j :: i <= j <= n && at(j) == r
    decreases n - i
  {
    if at(i).Some? || i == n then at(i) else FirstSome(at, i + 1, n)
  }

  /** The search finds nothing exactly when nothing matches. */
  lemma {:induction false} FirstSomeNone<T>(at: nat -> Option<T>, i: nat, n: nat)
    requires i <= n
    ensures FirstSome(at, i, n).None? <==> forall j :: i <= j <= n ==> at(j).None?
    decreases n - i
  {
    if at(i).None? && i < n {
      FirstSomeNone(at, i + 1, n);
    }
  }

  /** The search returns the match at the leftmost index that has one. */
  lemma {:induction false} FirstSomeAt<T>(at: nat -> Option<T>, i: nat, j: nat, n: nat)
    requires i <= j <= n && at(j).Some?
    requires forall k :: i <= k < j ==> at(k).None?
    ensures FirstSome(at, i, n) == at(j)
    decreases j - i
  {
    if i < j {
      FirstSomeAt(at, i + 1, j, n);
    }
  }

  /** A successful search names the leftmost index that matches. */
  lemma {:induction false} FirstSomeIndex<T>(at: nat -> Option<T>, i: nat, n: nat) returns (j: nat)
    requires i <= n && FirstSome(at, i, n).Some?
    ensures i <= j <= n && at(j) == FirstSome(at, i, n)
    ensures forall k :: i <= k < j ==> at(k).None?
    decreases n - i
  {
    if at(i).Some? {
      j := i;
    } else {
      j := FirstSomeIndex(at, i + 1, n);
    }
  }

  // ---------------------------------------------------------------------------
  // Global match

  /** Every match `at` yields ends after the index it starts at, and at n at
      the latest. */
  ghost predicate Advancing<T>(at: nat -> Option<(T, nat)>, n: nat) {
    forall p: nat :: at(p).Some? ==> p < at(p).value.1 <= n
  }

  /** What a global `match(/…/g)` collects from index i on, with `at(p)`
      the value and end index of the match starting exactly at p: the
      leftmost match, then the scan resumed right after it. */
  function Collect<T>(at: nat -> Option<(T, nat)>, i: nat, n: nat): seq<T>
    requires i <= n && Advancing(at, n)
    decreases n - i
  {
    if i == n then []
    else match at(i)
      case Some((v, e)) => [v] + Collect(at, e, n)
      case None => Collect(at, i + 1, n)
  }

  /** The scan collects nothing exactly when no index from i on starts a
      match. */
  lemma {:induction false} CollectNone<T>(at: nat -> Option<(T, nat)>, i: nat, n: nat)
    requires i <= n && Advancing(at, n)
    ensures Collect(at, i, n) == [] <==> forall j :: i <= j < n ==> at(j).None?
    decreases n - i
  {
    if i < n && at(i).None? {
      CollectNone(at, i + 1, n);
    }
  }

  /** The scan collects the leftmost match from i on first, then resumes
      right after it. */
  lemma {:induction false} CollectFirst<T>(at: nat -> Option<(T, nat)>, i: nat, j: nat, n: nat)
    requires i <= j < n && Advancing(at, n) && at(j).Some?
    requires forall k :: i <= k < j ==> at(k).None?
    ensures Collect(at, i, n) == [at(j).value.0] + Collect(at, at(j).value.1, n)
    decreases j - i
  {
    if i < j {
      CollectFirst(at, i + 1, j, n);
    }
  }

  /** A property of every match's value holds of everything collected. */
  lemma {:induction false} CollectAll<T>(at: nat -> Option<(T, nat)>, i: nat, n: nat, p: T -> bool)
    requires i <= n && Advancing(at, n)
    requires forall q: nat :: at(q).Some? ==> p(at(q).value.0)
    ensures forall t :: 0 <= t < |Collect(at, i, n)| ==> p(Collect(at, i, n)[t])
    decreases n - i
  {
    if i < n {
      match at(i)
      case Some((v, e)) =>
        CollectAll(at, e, n, p);
      case None =>
        CollectAll(at, i + 1, n, p);
    }
  }

  // ---------------------------------------------------------------------------
  // Splitting

  /** Glue parts back together with d between consecutive parts. */
  function Join(parts: seq<string>, d: string): string {
    if |parts| == 0 then []
    else if |parts| == 1 then parts[0]
    else parts[0] + d + Join(parts[1..], d)
  }

  /** `String.prototype.split` with a non-empty string separator: the pieces
      between the non-overlapping occurrences of d, found left to right. */
  function Split(s: string, d: string): (r: seq<string>)
    requires |d| > 0
    ensures |r| >= 1
    ensures Join(r, d) == s
    ensures forall k :: 0 <= k < |r| ==> !Contains(r[k], d)
    ensures !Contains(s, d) ==> r == [s]
    ensures Contains(s, d) ==> |r| > 1 && r[0] == s[..IndexFrom(s, d, 0).value]
    decreases |s|
  {
    match IndexFrom(s, d, 0)
    case None => [s]
    case Some(i) =>
      var tail := Split(s[i + |d|..], d);
      SplitStep(s, d, i, tail);
      [s[..i]] + tail
  }

  /** One step of Split: the piece before the leftmost occurrence, then the
      pieces of the rest. */
  lemma SplitStep(s: string, d: string, i: nat, tail: seq<string>)
    requires |d| > 0 && IndexFrom(s, d, 0) == Some(i)
    requires |tail| >= 1 && Join(tail, d) == s[i + |d|..]
    requires forall k :: 0 <= k < |tail| ==> !Contains(tail[k], d)
    ensures Join([s[..i]] + tail, d) == s
    ensures forall k :: 0 <= k < |tail| + 1 ==> !Contains(([s[..i]] + tail)[k], d)
  {
    assert OccursAt(s, d, i);
    assert s[i..i + |d|] == d;
    JoinStep(s, d, i, tail);
    NoEarlierOccurrence(s, d, i);
    PiecesFree(s[..i], tail, d);
  }

  lemma PiecesFree(p: string, tail: seq<string>, d: string)
    requires !Contains(p, d)
    requires forall k :: 0 <= k < |tail| ==> !Contains(tail[k], d)
    ensures forall k :: 0 <= k < |tail| + 1 ==> !Contains(([p] + tail)[k], d)
  {
    var r := [p] + tail;
    assert forall k :: 1 <= k < |r| ==> r[k] == tail[k - 1];
  }

  lemma JoinStep(s: string, d: string, i: nat, tail: seq<string>)
    requires i + |d| <= |s| && s[i..i + |d|] == d
    requires |tail| >= 1 && Join(tail, d) == s[i + |d|..]
    ensures Join([s[..i]] + tail, d) == s
  {
    JoinCons(s[..i], tail, d);
    AroundOccurrence(s, d, i);
  }

  lemma JoinCons(p: string, tail: seq<string>, d: string)
    requires |tail| >= 1
    ensures Join([p] + tail, d) == p + d + Join(tail, d)
  {
    assert ([p] + tail)[1..] == tail;
  }

  lemma AroundOccurrence(s: string, d: string, i: nat)
    requires i + |d| <= |s| && s[i..i + |d|] == d
    ensures s == s[..i] + d + s[i + |d|..]
  {
    assert s == s[..i] + s[i..];
    assert s[i..] == s[i..i + |d|] + s[i + |d|..];
  }

  /** Occurrences from index 1 on are those of the tail, one index further. */
  lemma OccursTail(s: string, d: string, j: nat)
    requires |s| > 0
    ensures OccursAt(s, d, j + 1) <==> OccursAt(s[1..], d, j)
  {
  }

  /** Without an occurrence at the front, the leftmost occurrence in s is
      the leftmost one in its tail, one index further. */
  lemma IndexFromTail(s: string, d: string)
    requires |s| > 0 && !OccursAt(s, d, 0)
    ensures IndexFrom(s, d, 0)
         == match IndexFrom(s[1..], d, 0) case Some(i) => Some(i + 1) case None => None
  {
    match IndexFrom(s[1..], d, 0)
    case Some(i) => TailFirst(s, d, i);
    case None => TailNone(s, d);
  }

  lemma TailFirst(s: string, d: string, i: nat)
    requires |s| > 0 && !OccursAt(s, d, 0) && i + 1 <= |s|
    requires OccursAt(s[1..], d, i) && forall j :: 0 <= j < i ==> !OccursAt(s[1..], d, j)
    ensures IndexFrom(s, d, 0) == Some(i + 1)
  {
    OccursTail(s, d, i);
    forall j | 1 <= j < i + 1 ensures !OccursAt(s, d, j) {
      OccursTail(s, d, j - 1);
    }
    IndexFromIs(s, d, Some(i + 1));
  }

  lemma TailNone(s: string, d: string)
    requires |s| > 0 && !OccursAt(s, d, 0) && forall j :: 0 <= j ==> !OccursAt(s[1..], d, j)
    ensures IndexFrom(s, d, 0) == None
  {
    forall j | 1 <= j ensures !OccursAt(s, d, j) {
      OccursTail(s, d, j - 1);
    }
    IndexFromIs(s, d, None);
  }

  /** The leftmost occurrence is the only index with its two properties. */
  lemma IndexFromIs(s: string, d: string, r: Option<nat>)
    requires r.Some? ==> OccursAt(s, d, r.value) && forall j :: 0 <= j < r.value ==> !OccursAt(s, d, j)
    requires r.None? ==> forall j :: 0 <= j ==> !OccursAt(s, d, j)
    ensures IndexFrom(s, d, 0) == r
  {
  }

  /** Split at the leftmost occurrence i: the piece before it, then the
      pieces of the rest. */
  lemma SplitAt(s: string, d: string, i: nat)
    requires |d| > 0 && IndexFrom(s, d, 0) == Some(i)
    ensures Split(s, d) == [s[..i]] + Split(s[i + |d|..], d)
  {
  }

  /** Without an occurrence at the front, the first piece of s is its first
      character followed by the first piece of its tail; the other pieces
      are the same. */
  lemma SplitCons(s: string, d: string)
    requires |d| > 0 && |s| > 0 && !OccursAt(s, d, 0)
    ensures Split(s, d) == [[s[0]] + Split(s[1..], d)[0]] + Split(s[1..], d)[1..]
  {
    IndexFromTail(s, d);
    var tl := s[1..];
    if IndexFrom(tl, d, 0).None? {
      assert s == [s[0]] + tl;
    } else {
      var i := IndexFrom(tl, d, 0).value;
      SplitAt(s, d, i + 1);
      SplitAt(tl, d, i);
      SplitConsPieces(s, tl, d, i);
    }
  }

  lemma SplitConsPieces(s: string, tl: string, d: string, i: nat)
    requires |s| > 0 && tl == s[1..] && i + |d| <= |tl|
    ensures tl[i + |d|..] == s[i + 1 + |d|..]
    ensures s[..i + 1] == [s[0]] + tl[..i]
  {
  }

  /** A character put in front of the first part comes first in the join. */
  lemma JoinFront(x: char, parts: seq<string>, d: string)
    requires |parts| >= 1
    ensures Join([[x] + parts[0]] + parts[1..], d) == [x] + Join(parts, d)
  {
    var ps := [[x] + parts[0]] + parts[1..];
    assert ps[1..] == parts[1..];
  }

  /** The part before the leftmost occurrence contains no occurrence. */
  lemma NoEarlierOccurrence(s: string, d: string, i: nat)
    requires |d| > 0
    requires IndexFrom(s, d, 0) == Some(i)
    ensures !Contains(s[..i], d)
  {
    var pre := s[..i];
    forall j | 0 <= j ensures !OccursAt(pre, d, j) {
      if j + |d| <= |pre| {
        assert !OccursAt(s, d, j);
        var t :| 0 <= t < |d| && s[j + t] != d[t];
        assert pre[j + t] == s[j + t];
      }
    }
  }

  // ---------------------------------------------------------------------------
  // Decimal numbers

  function DigitChar(n: nat): (c: char)
    requires n < 10
    ensures IsDigit(c)
  {
    ('0' as int + n) as char
  }

  function DigitValue(c: char): (n: nat)
    requires IsDigit(c)
    ensures n < 10
  {
    c as int - '0' as int
  }

  /** The decimal digits of n, most significant first, without leading zeros. */
  function NatToString(n: nat): (r: string)
    ensures |r| >= 1 && AllDigits(r)
    ensures n >= 10 ==> r[0] != '0'
    decreases n
  {
    if n < 10 then [DigitChar(n)] else NatToString(n / 10) + [DigitChar(n % 10)]
  }

  /** The value of a string of decimal digits (`parseInt`). */
  function DigitsValue(s: string): nat
    requires AllDigits(s)
  {
    if |s| == 0 then 0 else DigitsValue(s[..|s| - 1]) * 10 + DigitValue(s[|s| - 1])
  }

  /** Printing a number and reading it back gives the number. */
  lemma {:induction false} NatToStringRoundTrip(n: nat)
    ensures DigitsValue(NatToString(n)) == n
    decreases n
  {
    if n >= 10 {
      NatToStringRoundTrip(n / 10);
      var r := NatToString(n);
      assert r[..|r| - 1] == NatToString(n / 10);
    }
  }

  /** Numbers from 1000 to 9999 print as exactly four digits. */
  lemma FourDigitWidth(n: nat)
    requires 1000 <= n <= 9999
    ensures |NatToString(n)| == 4
  {
    assert |NatToString(n / 1000)| == 1;
    assert |NatToString(n / 100)| == 2;
    assert |NatToString(n / 10)| == 3;
  }

  /** A JavaScript template literal's rendering of an integer. */
  function IntToString(i: int): (r: string)
    ensures forall k :: 0 <= k < |r| ==> IsDigit(r[k]) || r[k] == '-'
  {
    if i < 0 then "-" + NatToString(-i) else NatToString(i)
  }

  // ---------------------------------------------------------------------------
  // Case

  /** Lower-casing of the ASCII letters; every other character is kept. */
  function ToLowerAscii(s: string): (r: string)
    ensures |r| == |s|
    ensures forall k :: 0 <= k < |s| ==> r[k] == (if 'A' <= s[k] <= 'Z' then (s[k] as int + 32) as char else s[k])
  {
    if |s| == 0 then [] else
      var c := if 'A' <= s[0] <= 'Z' then (s[0] as int + 32) as char else s[0];
      [c] + ToLowerAscii(s[1..])
  }
}
