/** Reading a quiz answer out of a post body: the two answer patterns of
    the quiz crawler, written out as the scans a backtracking regular
    expression engine performs, and the clean-up applied to the captured
    text.

    The fallback pattern is `정답`, optional white space, an optional
    colon, optional white space, then a lazy capture of at least one
    character other than CR and LF that ends where the look-ahead
    "white space, then `.`, `!` or `?`", "white space, then CR or LF" or
    "white space, then the end" first holds.  The strict pattern puts
    `정답`, optional white space and `입니다` in front of it, joined by the
    shortest possible run of any characters. */
module QuizAnswer {
  import opened Options
  import opened Text

  /** The length of the run of white space starting at `p`. */
  function SpaceRun(t: string, p: nat): (w: nat)
    requires p <= |t|
    decreases |t| - p
    ensures p + w <= |t|
    ensures forall k :: p <= k < p + w ==> IsSpace(t[k])
    ensures p + w < |t| ==> !IsSpace(t[p + w])
  {
    if p < |t| && IsSpace(t[p]) then 1 + SpaceRun(t, p + 1) else 0
  }

  predicate IsSentenceEnd(c: char) {
    c == '.' || c == '!' || c == '?'
  }

  /** The look-ahead `(?=\s*[.!?]|\s*[\n\r]|\s*$)` at `e`.  Since `.`, `!`
      and `?` are not white space, the first alternative can only hold
      after the whole run of white space; CR and LF are white space, so
      the second holds when the run contains one; the third when the run
      reaches the end. */
  predicate StopsAt(t: string, e: nat)
    requires e <= |t|
  {
    var w := SpaceRun(t, e);
    e + w == |t| || IsSentenceEnd(t[e + w]) || exists k :: e <= k < e + w && IsLineBreak(t[k])
  }

  lemma StopsAtLineBreak(t: string, e: nat)
    requires e < |t| && IsLineBreak(t[e])
    ensures StopsAt(t, e)
  {
    LineBreakIsSpace(t[e]);
  }

  /** The lazy capture `([^\n\r]+?)` started at `s` and grown to at least
      `e`: it ends at the first position from `e` on where the look-ahead
      holds.  It never has to give up: a CR, an LF or the end of the text
      stops it first. */
  function CaptureEnd(t: string, s: nat, e: nat): (r: nat)
    requires s < e <= |t|
    requires forall k :: s <= k < e ==> !IsLineBreak(t[k])
    decreases |t| - e
    ensures e <= r <= |t| && StopsAt(t, r)
    ensures forall k :: s <= k < r ==> !IsLineBreak(t[k])
    ensures forall q :: e <= q < r ==> !StopsAt(t, q)
  {
    if StopsAt(t, e) then e
    else
      assert e < |t| && !IsLineBreak(t[e]) by {
        if e < |t| && IsLineBreak(t[e]) {
          StopsAtLineBreak(t, e);
        }
      }
      CaptureEnd(t, s, e + 1)
  }

  /** The largest position in `[lo, hi]` inside the text that does not hold
      CR or LF: where a greedy `\s*` that must give back characters ends. */
  function LastUsable(t: string, lo: nat, hi: nat): (r: Option<nat>)
    decreases hi
    ensures r.Some? ==> lo <= r.value <= hi && r.value < |t| && !IsLineBreak(t[r.value])
                        && forall q :: r.value < q <= hi && q < |t| ==> IsLineBreak(t[q])
    ensures r.None? ==> forall q :: lo <= q <= hi && q < |t| ==> IsLineBreak(t[q])
  {
    if hi < lo then None
    else if hi < |t| && !IsLineBreak(t[hi]) then Some(hi)
    else if hi == lo then None
    else LastUsable(t, lo, hi - 1)
  }

  /** `t[p..s]` has the shape `\s*:?\s*`. */
  predicate GapShape(t: string, p: nat, s: nat) {
    p <= s <= |t|
    && ((forall k :: p <= k < s ==> IsSpace(t[k]))
        || exists c :: p <= c < s && t[c] == ':'
                       && (forall k :: p <= k < c ==> IsSpace(t[k]))
                       && (forall k :: c < k < s ==> IsSpace(t[k])))
  }

  /** Where the capture starts once `\s*:?\s*` has been matched from `p`
      and backtracked as far as the capture's first character needs:
      after the greedy run of white space, a colon is taken when there is
      one and the white space after it too, giving back characters only
      when the text ends in CR and LF; without a colon the capture starts
      at the first character that is not white space, or, when only white
      space is left, at the last one of it that is neither CR nor LF. */
  function CaptureStart(t: string, p: nat): (s: Option<nat>)
    requires p <= |t|
    ensures s.Some? ==> GapShape(t, p, s.value) && s.value < |t| && !IsLineBreak(t[s.value])
    ensures s.None? <==> forall q :: p <= q < |t| ==> IsLineBreak(t[q])
  {
    var k := p + SpaceRun(t, p);
    if k < |t| && t[k] == ':' then
      var k2 := k + 1;
      var u := LastUsable(t, k2, k2 + SpaceRun(t, k2));
      if u.Some? then
        assert GapShape(t, p, u.value) by {
          assert forall j :: k2 <= j < u.value ==> IsSpace(t[j]);
        }
        u
      else
        assert !IsLineBreak(t[k]);
        Some(k)
    else if k < |t| then
      assert !IsLineBreak(t[k]) by {
        if IsLineBreak(t[k]) {
          LineBreakIsSpace(t[k]);
        }
      }
      Some(k)
    else if k == p then None
    else
      var u := LastUsable(t, p, k - 1);
      assert u.Some? ==> GapShape(t, p, u.value);
      assert u.None? ==> forall q :: p <= q < |t| ==> IsLineBreak(t[q]);
      u
  }

  /** The literal `정답` at `j`. */
  predicate CoreAt(t: string, j: nat) {
    j + 2 <= |t| && t[j] == '정' && t[j + 1] == '답'
  }

  lemma SliceKeepsNoLineBreaks(t: string, s: nat, e: nat)
    requires s <= e <= |t|
    requires forall k :: s <= k < e ==> !IsLineBreak(t[k])
    ensures NoLineBreaks(t[s..e])
  {
    assert forall k :: 0 <= k < e - s ==> t[s..e][k] == t[s + k];
  }

  /** The fallback pattern tried at position `j` alone: the captured text, if
      the pattern matches there. */
  function MatchAt(t: string, j: nat): (c: Option<string>)
    ensures c.Some? ==> CoreAt(t, j) && c.value != [] && NoLineBreaks(c.value)
  {
    if !CoreAt(t, j) then None
    else
      match CaptureStart(t, j + 2)
      case None => None
      case Some(s) =>
        var e := CaptureEnd(t, s, s + 1);
        SliceKeepsNoLineBreaks(t, s, e);
        Some(t[s..e])
  }

  /** The fallback pattern matches at `j` exactly when `정답` is there and
      some character after it is neither CR nor LF. */
  predicate Hit(t: string, j: nat) {
    CoreAt(t, j) && exists q :: j + 2 <= q < |t| && !IsLineBreak(t[q])
  }

  lemma HitMeansMatch(t: string, j: nat)
    ensures MatchAt(t, j).Some? <==> Hit(t, j)
  {
    if CoreAt(t, j) {
      var cs := CaptureStart(t, j + 2);
      assert cs.Some? ==> !IsLineBreak(t[cs.value]);
    }
  }

  /** The leftmost position at or after `from` where the fallback pattern
      matches. */
  function FirstMatchFrom(t: string, from: nat): (j: Option<nat>)
    decreases |t| - from
    ensures j.Some? ==> from <= j.value && Hit(t, j.value)
                        && forall q :: from <= q < j.value ==> !Hit(t, q)
    ensures j.None? ==> forall q :: from <= q ==> !Hit(t, q)
  {
    if from >= |t| then None
    else if Hit(t, from) then Some(from)
    else FirstMatchFrom(t, from + 1)
  }

  /** The fallback pattern over the whole text: its leftmost match's capture. */
  function Fallback(t: string): (c: Option<string>)
    ensures c.Some? ==> c.value != [] && NoLineBreaks(c.value)
  {
    match FirstMatchFrom(t, 0)
    case None => None
    case Some(j) => MatchAt(t, j)
  }

  /** The fallback pattern matches the text exactly when it matches at some
      position. */
  lemma FallbackMatchesSomewhere(t: string)
    ensures Fallback(t).Some? <==> exists j :: MatchAt(t, j).Some?
  {
    forall j: nat ensures MatchAt(t, j).Some? <==> Hit(t, j) {
      HitMeansMatch(t, j);
    }
  }

  /** `정답\s*입니다` at `j`: the position just after it. */
  function HeaderEnd(t: string, j: nat): (h: Option<nat>)
    ensures h.Some? ==> CoreAt(t, j) && j + 2 < h.value <= |t|
  {
    if !CoreAt(t, j) then None
    else
      var k := j + 2 + SpaceRun(t, j + 2);
      if k + 3 <= |t| && t[k] == '입' && t[k + 1] == '니' && t[k + 2] == '다' then Some(k + 3)
      else None
  }

  /** The strict pattern holds at `j`: a header there, and after it the
      shortest stretch of any characters that leads to a match of the
      fallback pattern. */
  predicate StrictAt(t: string, j: nat) {
    HeaderEnd(t, j).Some? && FirstMatchFrom(t, HeaderEnd(t, j).value).Some?
  }

  /** The leftmost position at or after `from` where the strict pattern
      matches. */
  function FirstStrictFrom(t: string, from: nat): (j: Option<nat>)
    decreases |t| - from
    ensures j.Some? ==> from <= j.value && StrictAt(t, j.value)
                        && forall q :: from <= q < j.value ==> !StrictAt(t, q)
    ensures j.None? ==> forall q :: from <= q ==> !StrictAt(t, q)
  {
    if from >= |t| then
      forall q | from <= q ensures HeaderEnd(t, q).None? {
        assert !CoreAt(t, q);
      }
      None
    else if StrictAt(t, from) then Some(from)
    else FirstStrictFrom(t, from + 1)
  }

  /** The strict pattern over the whole text: the capture of its leftmost
      match, which is the fallback pattern's first match after the header. */
  function Strict(t: string): (c: Option<string>)
    ensures c.Some? ==> c.value != [] && NoLineBreaks(c.value)
  {
    match FirstStrictFrom(t, 0)
    case None => None
    case Some(j) => MatchAt(t, FirstMatchFrom(t, HeaderEnd(t, j).value).value)
  }

  /** Whenever the strict pattern matches, the fallback pattern matches too,
      so the fallback only ever decides for texts without a strict match. */
  lemma StrictImpliesFallback(t: string)
    ensures Strict(t).Some? ==> Fallback(t).Some?
  {
    if Strict(t).Some? {
      var j := FirstStrictFrom(t, 0).value;
      var m := FirstMatchFrom(t, HeaderEnd(t, j).value).value;
      assert MatchAt(t, m).Some?;
    }
  }

  // ---------------------------------------------------------------------
  // Cleaning up the captured text

  /** `s.split(/[\n\r]/)[0]`: `s` up to its first CR or LF. */
  function CutAtLineBreak(s: string): (r: string)
    ensures NoLineBreaks(r) && StartsWith(s, r)
    ensures |r| < |s| ==> IsLineBreak(s[|r|])
    ensures NoLineBreaks(s) ==> r == s
  {
    if s == [] then []
    else
      var r := CutAtLineBreak(s[..|s| - 1]);
      if |r| == |s| - 1 && !IsLineBreak(s[|s| - 1]) then s else r
  }

  /** `s.replace(/(?:입니다|입니다\.|\.)$/, '')`: the leftmost of the three
      endings that reaches the end of `s` is removed; `입니다.` starts
      further left than `.` and so wins over it. */
  function StripCopula(s: string): (r: string)
    ensures StartsWith(s, r)
    ensures var cut := s[|r|..]; cut == [] || cut == "입니다" || cut == "입니다." || cut == "."
    ensures EndsWith(s, "입니다.") ==> r == s[..|s| - 4]
    ensures !EndsWith(s, "입니다.") && EndsWith(s, "입니다") ==> r == s[..|s| - 3]
    ensures !EndsWith(s, "입니다.") && !EndsWith(s, "입니다") && EndsWith(s, ".") ==> r == s[..|s| - 1]
    ensures !EndsWith(s, "입니다") && !EndsWith(s, ".") ==> r == s
  {
    if EndsWith(s, "입니다.") then s[..|s| - 4]
    else if EndsWith(s, "입니다") then s[..|s| - 3]
    else if EndsWith(s, ".") then s[..|s| - 1]
    else s
  }

  /** The clean-up of a capture: trim, keep the first line, trim, drop one
      copula ending, trim. */
  function Tidy(capture: string): (answer: string)
    ensures IsTrimmed(answer) && NoLineBreaks(answer)
  {
    var first := Trim(CutAtLineBreak(Trim(capture)));
    TrimKeepsNoLineBreaks(CutAtLineBreak(Trim(capture)));
    var stripped := StripCopula(first);
    assert NoLineBreaks(stripped) by {
      forall i | 0 <= i < |stripped| ensures !IsLineBreak(stripped[i]) {
        assert stripped[i] == first[i];
      }
    }
    TrimKeepsNoLineBreaks(stripped);
    Trim(stripped)
  }

  /** Appending a text that does not end in white space to a trimmed,
      non-empty one keeps it trimmed; CR and LF stay out. */
  lemma AppendTrimmed(a: string, b: string)
    requires a != [] && IsTrimmed(a) && NoLineBreaks(a)
    requires b != [] && !IsSpace(b[|b| - 1]) && NoLineBreaks(b)
    ensures IsTrimmed(a + b) && NoLineBreaks(a + b)
  {
    var s := a + b;
    assert s[0] == a[0] && s[|s| - 1] == b[|b| - 1];
    forall i | 0 <= i < |s| ensures !IsLineBreak(s[i]) {
      if i < |a| { assert s[i] == a[i]; } else { assert s[i] == b[i - |a|]; }
    }
  }

  /** On a trimmed one-line text the clean-up is the copula strip alone. */
  lemma TidyOfTrimmedLine(s: string)
    requires IsTrimmed(s) && NoLineBreaks(s)
    ensures Tidy(s) == Trim(StripCopula(s))
  {
    TrimOfTrimmed(s);
  }

  /** `입니다` or `입니다.` at the end is removed as a whole. */
  lemma StripCopulaOfCopula(a: string, ending: string)
    requires ending == "입니다" || ending == "입니다."
    ensures StripCopula(a + ending) == a
  {
    var s := a + ending;
    assert s[|s| - |ending|..] == ending;
    assert s[..|s| - |ending|] == a;
    if ending == "입니다" {
      assert s[|s| - 1] == '다';
    }
  }

  /** A full stop at the end is removed alone, unless `입니다` precedes it. */
  lemma StripCopulaOfFullStop(a: string)
    ensures !EndsWith(a, "입니다") ==> StripCopula(a + ".") == a
    ensures EndsWith(a, "입니다") ==> StripCopula(a + ".") == a[..|a| - 3]
  {
    var s := a + ".";
    assert s[..|s| - 1] == a;
    if |a| >= 3 {
      assert s[|s| - 4..] == a[|a| - 3..] + ".";
      assert s[..|s| - 4] == a[..|a| - 3];
    }
    assert s[|s| - 1] == '.';
  }

  /** A one-line answer followed by `입니다` or `입니다.` comes out as the
      answer alone. */
  lemma TidyDropsCopula(a: string, ending: string)
    requires a != [] && IsTrimmed(a) && NoLineBreaks(a)
    requires ending == "입니다" || ending == "입니다."
    ensures Tidy(a + ending) == a
  {
    AppendTrimmed(a, ending);
    TidyOfTrimmedLine(a + ending);
    StripCopulaOfCopula(a, ending);
    TrimOfTrimmed(a);
  }

  /** A one-line answer followed by a full stop loses the stop, unless the
      answer itself ends in `입니다`: then `입니다.` goes as a whole. */
  lemma TidyDropsFullStop(a: string)
    requires a != [] && IsTrimmed(a) && NoLineBreaks(a)
    ensures !EndsWith(a, "입니다") ==> Tidy(a + ".") == a
    ensures EndsWith(a, "입니다") ==> Tidy(a + ".") == Trim(a[..|a| - 3])
  {
    var s := a + ".";
    assert Tidy(s) == Trim(StripCopula(s)) by {
      AppendTrimmed(a, ".");
      TidyOfTrimmedLine(s);
    }
    StripCopulaOfFullStop(a);
    if !EndsWith(a, "입니다") {
      TrimOfTrimmed(a);
    }
  }

  /** `extractQuizAnswer` once the body is in hand: no body, or an empty
      one, gives nothing; otherwise the strict pattern's capture, else the
      fallback pattern's, cleaned up.  The answer may come out empty. */
  function ExtractAnswer(body: Option<string>): (answer: Option<string>)
    ensures answer.Some? ==> IsTrimmed(answer.value) && NoLineBreaks(answer.value)
  {
    if body.None? || body.value == [] then None
    else
      var t := body.value;
      match Strict(t)
      case Some(c) => Some(Tidy(c))
      case None =>
        match Fallback(t)
        case Some(c) => Some(Tidy(c))
        case None => None
  }

  /** There is an answer exactly when there is a non-empty body and the
      fallback pattern matches somewhere in it. */
  lemma ExtractAnswerExists(body: Option<string>)
    ensures ExtractAnswer(body).Some?
        <==> body.Some? && body.value != [] && exists j :: MatchAt(body.value, j).Some?
  {
    if body.Some? && body.value != [] {
      StrictImpliesFallback(body.value);
      FallbackMatchesSomewhere(body.value);
    }
  }

  /** When the strict pattern matches, its capture decides the answer. */
  lemma ExtractPrefersStrict(body: string)
    requires body != [] && Strict(body).Some?
    ensures ExtractAnswer(Some(body)) == Some(Tidy(Strict(body).value))
  {
  }

  /** When it does not, the fallback pattern's capture does. */
  lemma ExtractFallsBack(body: string)
    requires body != [] && Strict(body).None?
    ensures ExtractAnswer(Some(body)) == (if Fallback(body).Some? then Some(Tidy(Fallback(body).value)) else None)
  {
  }

  /** A text that opens with "정답입니다." */
  predicate OpensWithHeader(t: string) {
    |t| >= 6 && t[0] == '정' && t[1] == '답' && t[2] == '입' && t[3] == '니' && t[4] == '다' && t[5] == '.'
  }

  /** The fallback pattern on such a text captures "입니다" right away. */
  lemma FallbackOnHeader(t: string)
    requires OpensWithHeader(t)
    ensures Fallback(t) == Some("입니다")
  {
    assert CaptureStart(t, 2) == Some(2);
    assert !StopsAt(t, 3) && !StopsAt(t, 4) && StopsAt(t, 5);
    assert CaptureEnd(t, 2, 3) == 5;
    assert t[2..5] == "입니다";
    assert MatchAt(t, 0) == Some("입니다");
    assert Hit(t, 0) by { HitMeansMatch(t, 0); }
  }

  /** The look-ahead fails in front of a character that is neither white
      space nor `.`, `!` or `?`. */
  lemma WordCharacterDoesNotStop(t: string, q: nat)
    requires q < |t| && !IsSpace(t[q]) && !IsSentenceEnd(t[q])
    ensures !StopsAt(t, q)
  {
    assert SpaceRun(t, q) == 0;
  }

  /** After " 정답: " at `p` the capture starts right after the space. */
  lemma CaptureStartAfterColon(t: string, p: nat)
    requires p + 12 <= |t| && t[p + 9] == ':' && t[p + 10] == ' ' && !IsSpace(t[p + 11])
    ensures CaptureStart(t, p + 9) == Some(p + 11)
  {
    assert SpaceRun(t, p + 9) == 0;
    assert SpaceRun(t, p + 11) == 0;
    assert SpaceRun(t, p + 10) == 1;
  }

  /** A run of characters that are neither white space nor `.`, `!` or
      `?`, ended by a line feed, is captured whole. */
  lemma CaptureEndAtLineFeed(t: string, s: nat, a: string)
    requires a != [] && NoSpaces(a) && forall i :: 0 <= i < |a| ==> !IsSentenceEnd(a[i])
    requires s + |a| < |t| && t[s..s + |a|] == a && t[s + |a|] == '\n'
    ensures CaptureEnd(t, s, s + 1) == s + |a|
  {
    var e := s + |a|;
    assert forall i :: 0 <= i < |a| ==> t[s + i] == a[i];
    StopsAtLineBreak(t, e);
    forall q | s + 1 <= q < e ensures !StopsAt(t, q) {
      assert t[q] == a[q - s];
      WordCharacterDoesNotStop(t, q);
    }
  }

  /** After " 정답: " at `p`, such a run ended by a line feed is the
      fallback pattern's capture at `p + 7`, whatever follows. */
  lemma CaptureAfterColon(t: string, p: nat, a: string)
    requires a != [] && NoSpaces(a) && forall i :: 0 <= i < |a| ==> !IsSentenceEnd(a[i])
    requires p + 12 + |a| <= |t|
    requires t[p + 6] == ' ' && t[p + 7] == '정' && t[p + 8] == '답' && t[p + 9] == ':' && t[p + 10] == ' '
    requires t[p + 11..p + 11 + |a|] == a && t[p + 11 + |a|] == '\n'
    ensures MatchAt(t, p + 7) == Some(a)
  {
    assert t[p + 11] == a[0];
    CaptureStartAfterColon(t, p);
    CaptureEndAtLineFeed(t, p + 11, a);
  }

  /** The first position at or after `from` where a position-wise property
      holds, read off the search function's contract. */
  lemma FirstMatchFromIs(t: string, from: nat, j: nat)
    requires from <= j && Hit(t, j) && forall q :: from <= q < j ==> !Hit(t, q)
    ensures FirstMatchFrom(t, from) == Some(j)
  {
  }

  lemma FirstStrictFromIs(t: string, from: nat, j: nat)
    requires from <= j && StrictAt(t, j) && forall q :: from <= q < j ==> !StrictAt(t, q)
    ensures FirstStrictFrom(t, from) == Some(j)
  {
  }

  /** The strict pattern on a text with the header sentence at `p` and no
      "정" before it: the header at `p`, then the fallback pattern's first
      match after it, at `p + 7`. */
  lemma StrictAfterHeader(t: string, p: nat, a: string)
    requires p + 12 + |a| <= |t|
    requires forall q :: 0 <= q < p ==> t[q] != '정'
    requires a != [] && NoSpaces(a) && forall i :: 0 <= i < |a| ==> !IsSentenceEnd(a[i])
    requires t[p] == '정' && t[p + 1] == '답' && t[p + 2] == '입' && t[p + 3] == '니' && t[p + 4] == '다' && t[p + 5] == '.'
    requires t[p + 6] == ' ' && t[p + 7] == '정' && t[p + 8] == '답' && t[p + 9] == ':' && t[p + 10] == ' '
    requires t[p + 11..p + 11 + |a|] == a && t[p + 11 + |a|] == '\n'
    ensures Strict(t) == Some(a)
  {
    CaptureAfterColon(t, p, a);
    HitMeansMatch(t, p + 7);
    FirstMatchAfterHeader(t, p);
    forall q | 0 <= q < p ensures !StrictAt(t, q) {
      assert !CoreAt(t, q);
    }
    FirstStrictFromIs(t, 0, p);
  }

  /** After the header sentence at `p`, the first fallback match is the
      "정답" at `p + 7` when the pattern matches there. */
  lemma FirstMatchAfterHeader(t: string, p: nat)
    requires p + 12 <= |t|
    requires t[p] == '정' && t[p + 1] == '답' && t[p + 2] == '입' && t[p + 3] == '니' && t[p + 4] == '다' && t[p + 5] == '.'
    requires t[p + 6] == ' ' && t[p + 7] == '정' && t[p + 8] == '답'
    requires Hit(t, p + 7)
    ensures HeaderEnd(t, p) == Some(p + 5)
    ensures FirstMatchFrom(t, p + 5) == Some(p + 7)
  {
    assert SpaceRun(t, p + 2) == 0;
    assert !CoreAt(t, p + 5) && !CoreAt(t, p + 6);
    FirstMatchFromIs(t, p + 5, p + 7);
  }

  /** A space-free answer without `.`, `!`, `?` or a final `입니다` is
      left alone by the clean-up. */
  lemma TidyKeepsPlainWord(a: string)
    requires a != [] && NoSpaces(a) && !EndsWith(a, "입니다")
    requires forall i :: 0 <= i < |a| ==> !IsSentenceEnd(a[i])
    ensures Tidy(a) == a
  {
    assert IsTrimmed(a) && NoLineBreaks(a) by {
      forall i | 0 <= i < |a| ensures !IsLineBreak(a[i]) {
        if IsLineBreak(a[i]) { LineBreakIsSpace(a[i]); }
      }
    }
    TidyOfTrimmedLine(a);
    assert !EndsWith(a, ".");
    TrimOfTrimmed(a);
  }

  /** A capture that is only the copula cleans up to nothing. */
  lemma TidyOfBareCopula()
    ensures Tidy("입니다") == []
  {
    TidyOfTrimmedLine("입니다");
    StripCopulaOfCopula([], "입니다");
    TrimOfTrimmed([]);
  }

  /** The body of the example below: a header sentence, then the answer
      after "정답:" on a line of its own. */
  function HeaderThenAnswer(a: string): string {
    "정답입니다. 정답: " + a + "\n"
  }

  lemma FallbackStopsAtHeader(a: string)
    ensures Fallback(HeaderThenAnswer(a)) == Some("입니다")
  {
    var t := HeaderThenAnswer(a);
    assert t[..11] == "정답입니다. 정답: ";
    FallbackOnHeader(t);
  }

  /** Text without "정", the header sentence, the answer on its line and
      anything after it: the strict pattern captures the answer. */
  lemma StrictFindsAnswer(prefix: string, a: string, rest: string)
    requires forall q :: 0 <= q < |prefix| ==> prefix[q] != '정'
    requires a != [] && NoSpaces(a) && forall i :: 0 <= i < |a| ==> !IsSentenceEnd(a[i])
    ensures Strict(prefix + HeaderThenAnswer(a) + rest) == Some(a)
  {
    var h := HeaderThenAnswer(a);
    var t := prefix + h + rest;
    var p := |prefix|;
    assert h[..11] == "정답입니다. 정답: ";
    assert h[11..11 + |a|] == a;
    assert forall q :: 0 <= q < |h| ==> t[p + q] == h[q];
    assert t[p + 11..p + 11 + |a|] == h[11..11 + |a|];
    StrictAfterHeader(t, p, a);
  }

  /** So the answer is extracted from such a body whatever surrounds it. */
  lemma ExtractAnswerWithin(prefix: string, a: string, rest: string)
    requires forall q :: 0 <= q < |prefix| ==> prefix[q] != '정'
    requires a != [] && NoSpaces(a) && !EndsWith(a, "입니다")
    requires forall i :: 0 <= i < |a| ==> !IsSentenceEnd(a[i])
    ensures ExtractAnswer(Some(prefix + HeaderThenAnswer(a) + rest)) == Some(a)
  {
    StrictFindsAnswer(prefix, a, rest);
    TidyKeepsPlainWord(a);
    ExtractPrefersStrict(prefix + HeaderThenAnswer(a) + rest);
  }

  /** Why the strict pattern comes first: in a body that opens with
      "정답입니다." and gives the answer after a later "정답:", the fallback
      pattern alone would capture "입니다", which cleans up to nothing,
      while the strict pattern reaches the answer. */
  lemma StrictReachesTheAnswer(a: string)
    requires a != [] && NoSpaces(a) && !EndsWith(a, "입니다")
    requires forall i :: 0 <= i < |a| ==> !IsSentenceEnd(a[i])
    ensures Fallback(HeaderThenAnswer(a)).Some? && Tidy(Fallback(HeaderThenAnswer(a)).value) == []
    ensures ExtractAnswer(Some(HeaderThenAnswer(a))) == Some(a)
  {
    FallbackStopsAtHeader(a);
    TidyOfBareCopula();
    ExtractAnswerWithin([], a, []);
    assert [] + HeaderThenAnswer(a) + [] == HeaderThenAnswer(a);
  }

  /** A worked example: in a body that announces the answer and goes on to
      the next question on a new line, the answer is the word after the
      colon. */
  lemma ExtractAnswerOfSampleBody()
    ensures ExtractAnswer(Some("...정답입니다. 정답: 사과\n다음 문제는...")) == Some("사과")
  {
    assert "..." + HeaderThenAnswer("사과") + "다음 문제는..." == "...정답입니다. 정답: 사과\n다음 문제는...";
    assert !EndsWith("사과", "입니다");
    ExtractAnswerWithin("...", "사과", "다음 문제는...");
  }
}
