/** The LaTeX clean-up chain applied to titles, responsibilities, achievements
    and skill names: `\$` to `$`, `\&` to `&`, `\%` to `%`, `\\` to `\`, in
    that order, each a global left-to-right replacement. */
module Sanitizer {
  import opened Text

  /** Global replacement of the two-character sequence [a, b] by the single
      character c, scanning left to right without overlaps, as
      `replace(/ab/g, c)` does. */
  function ReplacePair(s: string, a: char, b: char, c: char): (r: string)
    ensures |r| <= |s|
    ensures a !in s ==> r == s
    ensures forall k :: 0 <= k < |r| ==> r[k] in s || r[k] == c
    decreases |s|
  {
    if |s| < 2 then s
    else if s[0] == a && s[1] == b then [c] + ReplacePair(s[2..], a, b, c)
    else [s[0]] + ReplacePair(s[1..], a, b, c)
  }

  /** The replacement is `split` on [a, b] followed by `join` with c: each
      non-overlapping occurrence of the pair, found left to right, becomes c,
      and the text between occurrences is kept. */
  lemma {:induction false} ReplacePairMeans(s: string, a: char, b: char, c: char)
    ensures ReplacePair(s, a, b, c) == Join(Split(s, [a, b]), [c])
    decreases |s|
  {
    var d := [a, b];
    if |s| < 2 {
      assert IndexFrom(s, d, 0).None?;
    } else if s[0] == a && s[1] == b {
      assert OccursAt(s, d, 0);
      ReplacePairMeans(s[2..], a, b, c);
      JoinCons([], Split(s[2..], d), [c]);
    } else {
      assert !OccursAt(s, d, 0) by {
        if s[0] != a {
          assert s[0 + 0] != d[0];
        } else {
          assert s[0 + 1] != d[1];
        }
      }
      ReplacePairMeans(s[1..], a, b, c);
      SplitCons(s, d);
      JoinFront(s[0], Split(s[1..], d), [c]);
    }
  }

  /** The four replacements, in source order, without trimming. */
  function Unescape(s: string): string {
    var dollar := ReplacePair(s, '\\', '$', '$');
    var amp := ReplacePair(dollar, '\\', '&', '&');
    var percent := ReplacePair(amp, '\\', '%', '%');
    ReplacePair(percent, '\\', '\\', '\\')
  }

  /** The clean-up used for titles, responsibilities, achievements and the
      skill category: replace, then trim. */
  function Sanitize(s: string): (r: string)
    ensures |r| <= |s|
    ensures '\\' !in s ==> r == Trim(s)
  {
    Trim(Unescape(s))
  }

  /** The clean-up used for each comma-separated skill: trim, then replace,
      with no trim afterwards. */
  function CleanSkill(s: string): (r: string)
    ensures |r| <= |s|
    ensures '\\' !in s ==> r == Trim(s)
  {
    Unescape(Trim(s))
  }

  /** Sanitizing is not idempotent: `\\&` (backslash, backslash, ampersand)
      becomes `\&` on the first pass and `&` on the second. */
  lemma SanitizeNotIdempotent()
    ensures Sanitize("\\\\&") == "\\&"
    ensures Sanitize(Sanitize("\\\\&")) == "&"
  {
    FirstPass();
    SecondPass();
  }

  lemma FirstPass()
    ensures Sanitize("\\\\&") == "\\&"
  {
    FirstUnescape();
    TrimFixed("\\&");
  }

  lemma FirstUnescape()
    ensures Unescape("\\\\&") == "\\&"
  {
    var s := "\\\\&";
    assert ReplacePair(s[2..], '\\', '$', '$') == s[2..];
    assert ReplacePair(s, '\\', '$', '$') == s;
    assert ReplacePair(s[1..], '\\', '&', '&') == "&";
    assert ReplacePair(s, '\\', '&', '&') == "\\&";
    PairFixed();
  }

  /** `\&` is left alone by the `\%` and `\\` replacements. */
  lemma PairFixed()
    ensures ReplacePair("\\&", '\\', '%', '%') == "\\&"
    ensures ReplacePair("\\&", '\\', '\\', '\\') == "\\&"
  {
    assert "\\&"[1..] == "&";
  }

  lemma SecondPass()
    ensures Sanitize("\\&") == "&"
  {
    SecondUnescape();
    TrimFixed("&");
  }

  lemma SecondUnescape()
    ensures Unescape("\\&") == "&"
  {
    var s := "\\&";
    assert s[1..] == "&";
    assert ReplacePair(s, '\\', '$', '$') == s;
    assert ReplacePair(s, '\\', '&', '&') == "&";
    assert ReplacePair("&", '\\', '%', '%') == "&";
    assert ReplacePair("&", '\\', '\\', '\\') == "&";
  }
}
