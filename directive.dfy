/** The one regular expression shape the service uses, `/!Keyword: (.*)/`
    without flags, and the capture `String.prototype.match` returns for it. */
module Directive {
  import opened Wrappers
  import opened Text

  /** The literal part of the pattern for a directive keyword. */
  function Pattern(keyword: string): string {
    "!" + keyword + ": "
  }

  /** Reference semantics: `/pat(.*)/` matches at index `i` with capture `c`
      (`.*` is greedy, so `c` runs up to a line terminator or the end). */
  ghost predicate MatchesAt(text: string, pat: string, i: nat, c: string) {
    && OccursAt(text, pat, i)
    && i + |pat| + |c| <= |text|
    && text[i + |pat|..i + |pat| + |c|] == c
    && NoLineTerminator(c)
    && (i + |pat| + |c| == |text| || IsLineTerminator(text[i + |pat| + |c|]))
  }

  /** Without the `g` flag, `match` reports the leftmost match. */
  ghost predicate FirstMatchAt(text: string, pat: string, i: nat, c: string) {
    MatchesAt(text, pat, i, c) && forall j: nat, c': string :: j < i ==> !MatchesAt(text, pat, j, c')
  }

  /** `text.match(/!Keyword: (.*)/)?.[1]`: the text after the first occurrence of
      the directive marker, up to the end of that line. */
  function Capture(text: string, keyword: string): (r: Option<string>)
    ensures r.None? <==> forall i: nat :: !OccursAt(text, Pattern(keyword), i)
    ensures r.Some? ==> NoLineTerminator(r.value)
  {
    var pat := Pattern(keyword);
    match IndexOf(text, pat, 0)
    case None => None
    case Some(i) => Some(LineRest(text[i + |pat|..]))
  }

  /** Wherever the literal occurs, the regular expression matches, with the rest of the line. */
  lemma MatchWhereOccurs(text: string, pat: string, i: nat)
    requires OccursAt(text, pat, i)
    ensures MatchesAt(text, pat, i, LineRest(text[i + |pat|..]))
  {
    var rest := text[i + |pat|..];
    var c := LineRest(rest);
    assert rest[..|c|] == c;
    assert text[i + |pat|..i + |pat| + |c|] == rest[..|c|];
    if i + |pat| + |c| < |text| {
      assert text[i + |pat| + |c|] == rest[|c|];
    }
  }

  /** At a given index the greedy capture is unique. */
  lemma MatchUnique(text: string, pat: string, i: nat, c: string, d: string)
    requires MatchesAt(text, pat, i, c) && MatchesAt(text, pat, i, d)
    ensures c == d
  {
    var rest := text[i + |pat|..];
    assert rest[..|c|] == c && rest[..|d|] == d;
    assert |c| < |rest| ==> rest[|c|] == text[i + |pat| + |c|];
    assert |d| < |rest| ==> rest[|d|] == text[i + |pat| + |d|];
    LineRestUnique(rest, c);
    LineRestUnique(rest, d);
  }

  /** `Capture` is exactly the capture of the leftmost match of the regular expression. */
  lemma CaptureIsFirstMatch(text: string, keyword: string, c: string)
    ensures Capture(text, keyword) == Some(c) <==> exists i: nat :: FirstMatchAt(text, Pattern(keyword), i, c)
  {
    if Capture(text, keyword) == Some(c) {
      CaptureMatchesFirst(text, keyword);
    }
    if i: nat :| FirstMatchAt(text, Pattern(keyword), i, c) {
      FirstMatchIsCapture(text, keyword, i, c);
    }
  }

  lemma CaptureMatchesFirst(text: string, keyword: string)
    requires Capture(text, keyword).Some?
    ensures FirstMatchAt(text, Pattern(keyword), IndexOf(text, Pattern(keyword), 0).value, Capture(text, keyword).value)
  {
    var pat := Pattern(keyword);
    var i := IndexOf(text, pat, 0).value;
    MatchWhereOccurs(text, pat, i);
  }

  lemma FirstMatchIsCapture(text: string, keyword: string, i: nat, c: string)
    requires FirstMatchAt(text, Pattern(keyword), i, c)
    ensures Capture(text, keyword) == Some(c)
  {
    FirstMatchIsIndexOf(text, Pattern(keyword), i, c);
  }

  /** The leftmost match sits at the first occurrence of the literal. */
  lemma FirstMatchIsIndexOf(text: string, pat: string, i: nat, c: string)
    requires FirstMatchAt(text, pat, i, c)
    ensures IndexOf(text, pat, 0) == Some(i) && c == LineRest(text[i + |pat|..])
  {
    var idx := IndexOf(text, pat, 0);
    assert idx.Some? && idx.value <= i;
    MatchWhereOccurs(text, pat, idx.value);
    if idx.value < i {
      assert false;
    }
    MatchUnique(text, pat, i, c, LineRest(text[i + |pat|..]));
  }

  /** `match` returns `null` exactly when the regular expression matches nowhere. */
  lemma NoCaptureIffNoMatch(text: string, keyword: string)
    ensures Capture(text, keyword).None? <==> forall i: nat, c: string :: !MatchesAt(text, Pattern(keyword), i, c)
  {
    var pat := Pattern(keyword);
    if Capture(text, keyword).Some? {
      var i := IndexOf(text, pat, 0).value;
      MatchWhereOccurs(text, pat, i);
    }
  }

  /** A directive line whose marker does not occur earlier captures its value. */
  lemma {:induction false} CaptureAfter(pre: string, keyword: string, value: string, rest: string)
    requires forall i: nat :: i < |pre| ==> !OccursAt(pre + Pattern(keyword) + value + rest, Pattern(keyword), i)
    requires NoLineTerminator(value)
    requires rest == [] || IsLineTerminator(rest[0])
    ensures Capture(pre + Pattern(keyword) + value + rest, keyword) == Some(value)
  {
    var pat := Pattern(keyword);
    var text := pre + pat + value + rest;
    var b := |pre| + |pat|;
    assert text[|pre|..b] == pat;
    assert text[b..b + |value|] == value;
    if b + |value| < |text| {
      assert text[b + |value|] == rest[0];
    }
    assert MatchesAt(text, pat, |pre|, value);
    assert FirstMatchAt(text, pat, |pre|, value);
    CaptureIsFirstMatch(text, keyword, value);
  }

  /** A text that starts with a directive line captures its value. */
  lemma CaptureAtStart(keyword: string, value: string, rest: string)
    requires NoLineTerminator(value)
    requires rest == [] || IsLineTerminator(rest[0])
    ensures Capture(Pattern(keyword) + value + rest, keyword) == Some(value)
  {
    var pat := Pattern(keyword);
    var text := pat + value + rest;
    assert text[..|pat|] == pat;
    assert text[|pat|..|pat| + |value|] == value;
    if |pat| + |value| < |text| {
      assert text[|pat| + |value|] == rest[0];
    }
    assert MatchesAt(text, pat, 0, value);
    assert FirstMatchAt(text, pat, 0, value);
    CaptureIsFirstMatch(text, keyword, value);
  }
}
