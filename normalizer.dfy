/** Answer canonicalisation (quizzer/normalizer.py): the canonical form that
    grading compares, the match rule built on it, and the display form that
    keeps case. */
module Normalizer {
  import opened Text

  /** A display part: non-empty and without surrounding whitespace. */
  predicate IsDisplayPart(p: string) {
    p != [] && IsStripped(p)
  }

  /** A canonical part: a display part that is also lower-case. */
  predicate IsCleanPart(p: string) {
    IsDisplayPart(p) && IsLower(p)
  }

  /** One comma part, stripped then lower-cased; nothing when that is empty. */
  function CleanPart(p: string): (r: seq<string>)
    ensures |r| <= 1
    ensures r != [] ==> IsCleanPart(r[0])
    ensures r == [] <==> AllSpace(p)
  {
    var c := Lower(Strip(p));
    StripSpec(p);
    LowerFacts(Strip(p));
    if c == [] then [] else [c]
  }

  /** One comma part, stripped, case kept; nothing when that is empty. */
  function DisplayPart(p: string): (r: seq<string>)
    ensures |r| <= 1
    ensures r != [] ==> IsDisplayPart(r[0])
    ensures r == [] <==> AllSpace(p)
  {
    var c := Strip(p);
    StripSpec(p);
    if c == [] then [] else [c]
  }

  /** The comma parts of an answer, stripped then lower-cased, with the empty
      ones dropped, in their original order. */
  function CleanParts(parts: seq<string>): (r: seq<string>)
    ensures |r| <= |parts|
  {
    if parts == [] then [] else CleanPart(parts[0]) + CleanParts(parts[1..])
  }

  /** Every canonical part is non-empty, stripped and lower-case. */
  lemma {:induction false} CleanPartsClean(parts: seq<string>)
    ensures forall i :: 0 <= i < |CleanParts(parts)| ==> IsCleanPart(CleanParts(parts)[i])
  {
    if parts != [] {
      var h, t := CleanPart(parts[0]), CleanParts(parts[1..]);
      CleanPartsClean(parts[1..]);
      forall i | 0 <= i < |h + t| ensures IsCleanPart((h + t)[i]) {
        if i < |h| { assert (h + t)[i] == h[i]; } else { assert (h + t)[i] == t[i - |h|]; }
      }
    }
  }

  /** The comma parts of an answer, stripped, with the empty ones dropped, in
      their original order and with their case kept. */
  function DisplayParts(parts: seq<string>): (r: seq<string>)
    ensures |r| <= |parts|
  {
    if parts == [] then [] else DisplayPart(parts[0]) + DisplayParts(parts[1..])
  }

  /** Every display part is non-empty and stripped. */
  lemma {:induction false} DisplayPartsClean(parts: seq<string>)
    ensures forall i :: 0 <= i < |DisplayParts(parts)| ==> IsDisplayPart(DisplayParts(parts)[i])
  {
    if parts != [] {
      var h, t := DisplayPart(parts[0]), DisplayParts(parts[1..]);
      DisplayPartsClean(parts[1..]);
      forall i | 0 <= i < |h + t| ensures IsDisplayPart((h + t)[i]) {
        if i < |h| { assert (h + t)[i] == h[i]; } else { assert (h + t)[i] == t[i - |h|]; }
      }
    }
  }

  /** Neither stripping nor lower-casing brings in a comma. */
  lemma {:induction false} CleanPartsNoComma(parts: seq<string>)
    requires NoComma(parts)
    ensures NoComma(CleanParts(parts))
  {
    if parts != [] {
      assert CommaFree(parts[0]);
      StripCommaFree(parts[0]);
      LowerFacts(Strip(parts[0]));
      assert NoComma(parts[1..]);
      CleanPartsNoComma(parts[1..]);
    }
  }

  lemma {:induction false} DisplayPartsNoComma(parts: seq<string>)
    requires NoComma(parts)
    ensures NoComma(DisplayParts(parts))
  {
    if parts != [] {
      assert CommaFree(parts[0]);
      StripCommaFree(parts[0]);
      assert NoComma(parts[1..]);
      DisplayPartsNoComma(parts[1..]);
    }
  }

  /** A part of a canonical answer: non-empty, stripped, lower-case, without
      a comma. */
  predicate IsCanonicalPart(p: string) {
    IsCleanPart(p) && CommaFree(p)
  }

  /** `normalize_answer`: the canonical form of an answer (its properties are
      stated by `NormalizeAnswerSpec`). */
  function NormalizeAnswer(answer: string): (r: seq<string>)
    ensures |r| <= |Split(answer)|
  {
    if answer == [] then [] else SortStrings(CleanParts(Split(answer)))
  }

  /** The canonical form is the canonical parts of the comma parts, sorted:
      each part non-empty, stripped, lower-case and free of commas, the
      parts in order, and exactly the multiset of canonical parts. */
  lemma NormalizeAnswerSpec(answer: string)
    ensures Sorted(NormalizeAnswer(answer))
    ensures forall i :: 0 <= i < |NormalizeAnswer(answer)| ==> IsCanonicalPart(NormalizeAnswer(answer)[i])
    ensures multiset(NormalizeAnswer(answer)) == multiset(CleanParts(Split(answer)))
    ensures |NormalizeAnswer(answer)| == |CleanParts(Split(answer))|
  {
    var c := CleanParts(Split(answer));
    var r := NormalizeAnswer(answer);
    NormalizeIsSortedCleanParts(answer);
    SortStringsSorted(c);
    SplitParts(answer);
    CleanPartsNoComma(Split(answer));
    CleanPartsClean(Split(answer));
    forall i | 0 <= i < |r| ensures IsCanonicalPart(r[i]) {
      assert r[i] in multiset(c);
      var j :| 0 <= j < |c| && c[j] == r[i];
    }
  }

  /** `answers_match`: equality of the two canonical forms. */
  predicate AnswersMatch(userAnswer: string, correctAnswer: string) {
    NormalizeAnswer(userAnswer) == NormalizeAnswer(correctAnswer)
  }

  /** `format_answer_display`: the stripped non-empty parts joined by ", ". */
  function FormatAnswerDisplay(answer: string): string {
    if answer == [] then [] else Join(DisplayParts(Split(answer)), ", ")
  }

  /** The `if not answer` guard of `format_answer_display` is redundant. */
  lemma FormatIsJoin(answer: string)
    ensures FormatAnswerDisplay(answer) == Join(DisplayParts(Split(answer)), ", ")
  {
    if answer == [] {
      assert Split(answer) == [[]];
    }
  }

  // ---------------------------------------------------------------------------
  // Facts about the parts

  lemma {:induction false} CleanPartsAppend(a: seq<string>, b: seq<string>)
    ensures CleanParts(a + b) == CleanParts(a) + CleanParts(b)
  {
    if a == [] {
      assert a + b == b;
    } else {
      assert (a + b)[1..] == a[1..] + b;
      assert (a + b)[0] == a[0];
      CleanPartsAppend(a[1..], b);
    }
  }

  lemma {:induction false} DisplayPartsAppend(a: seq<string>, b: seq<string>)
    ensures DisplayParts(a + b) == DisplayParts(a) + DisplayParts(b)
  {
    if a == [] {
      assert a + b == b;
    } else {
      assert (a + b)[1..] == a[1..] + b;
      assert (a + b)[0] == a[0];
      DisplayPartsAppend(a[1..], b);
    }
  }

  /** Lower-casing each part commutes with dropping empty parts: the canonical
      parts are exactly the display parts lower-cased. */
  lemma {:induction false} CleanIsLoweredDisplay(parts: seq<string>)
    ensures CleanParts(parts) == LowerAll(DisplayParts(parts))
  {
    if parts != [] {
      LowerFacts(Strip(parts[0]));
      CleanIsLoweredDisplay(parts[1..]);
      var c := Strip(parts[0]);
      if c != [] {
        var rest := DisplayParts(parts[1..]);
        assert DisplayParts(parts) == [c] + rest;
        assert ([c] + rest)[1..] == rest;
      } else {
        assert DisplayParts(parts) == DisplayParts(parts[1..]);
      }
    }
  }

  function LowerAll(parts: seq<string>): (r: seq<string>)
    ensures |r| == |parts|
  {
    if parts == [] then [] else [Lower(parts[0])] + LowerAll(parts[1..])
  }

  /** Taking one comma part out of the list takes its canonical part (if
      any) out of the canonical parts. */
  lemma {:induction false} CleanPartsRemove(b: seq<string>, k: nat)
    requires k < |b|
    ensures multiset(CleanParts(b)) ==
              multiset(CleanPart(b[k])) + multiset(CleanParts(b[..k] + b[k + 1..]))
  {
    if k == 0 {
      assert b[..k] + b[k + 1..] == b[1..];
    } else {
      var rest := b[..k] + b[k + 1..];
      var tail := b[1..][..k - 1] + b[1..][k..];
      assert rest == [b[0]] + tail;
      CleanPartsCons(b[0], tail);
      CleanPartsCons(b[0], b[1..]);
      assert b == [b[0]] + b[1..];
      CleanPartsRemove(b[1..], k - 1);
    }
  }

  /** The canonical parts depend only on the multiset of comma parts, not on
      their order. */
  lemma {:induction false} CleanPartsPermutation(a: seq<string>, b: seq<string>)
    requires multiset(a) == multiset(b)
    ensures multiset(CleanParts(a)) == multiset(CleanParts(b))
  {
    if a != [] {
      var x := a[0];
      assert x in multiset(b);
      var k :| 0 <= k < |b| && b[k] == x;
      var rest := b[..k] + b[k + 1..];
      assert b == b[..k] + [x] + b[k + 1..];
      assert multiset(rest) == multiset(b) - multiset{x};
      assert multiset(a[1..]) == multiset(a) - multiset{x} by {
        assert a == [x] + a[1..];
      }
      CleanPartsPermutation(a[1..], rest);
      CleanPartsRemove(b, k);
    } else {
      assert b == [];
    }
  }

  /** The `if not answer` guard is redundant: the general path also maps the
      empty answer to `[]`. */
  lemma NormalizeIsSortedCleanParts(answer: string)
    ensures NormalizeAnswer(answer) == SortStrings(CleanParts(Split(answer)))
  {
    if answer == [] {
      assert Split(answer) == [[]];
    }
  }

  /** Canonical forms are equal exactly when the canonical parts are equal as
      multisets: order of parts never matters, multiplicity always does. */
  lemma NormalizeEqualIffSameParts(a: string, b: string)
    ensures AnswersMatch(a, b) <==>
              multiset(CleanParts(Split(a))) == multiset(CleanParts(Split(b)))
  {
    NormalizeAnswerSpec(a);
    NormalizeAnswerSpec(b);
    if multiset(CleanParts(Split(a))) == multiset(CleanParts(Split(b))) {
      SortedUnique(NormalizeAnswer(a), NormalizeAnswer(b));
    }
  }

  // ---------------------------------------------------------------------------
  // Properties of normalize_answer

  /** Nothing but whitespace and commas. */
  predicate Blank(s: string) {
    forall i :: 0 <= i < |s| ==> IsSpace(s[i]) || s[i] == ','
  }

  lemma CleanPartsCons(p: string, rest: seq<string>)
    ensures CleanParts([p] + rest) == CleanPart(p) + CleanParts(rest)
  {
    assert ([p] + rest)[1..] == rest;
  }

  lemma BlankCons(s: string)
    requires s != []
    ensures Blank(s) <==> (IsSpace(s[0]) || s[0] == ',') && Blank(s[1..])
  {
    assert forall i :: 0 < i < |s| ==> s[i] == s[1..][i - 1];
  }

  lemma AllSpaceCons(c: char, s: string)
    ensures AllSpace([c] + s) <==> IsSpace(c) && AllSpace(s)
  {
    var t := [c] + s;
    assert t[0] == c && t[1..] == s;
    if IsSpace(c) && AllSpace(s) {
      forall i | 0 <= i < |t| ensures IsSpace(t[i]) {
        if i > 0 { assert t[i] == s[i - 1]; }
      }
    }
    if AllSpace(t) {
      forall i | 0 <= i < |s| ensures IsSpace(s[i]) {
        assert s[i] == t[i + 1];
      }
    }
  }

  /** The canonical parts are empty exactly when the answer is blank. */
  lemma {:induction false} CleanPartsEmptyIffBlank(s: string)
    ensures CleanParts(Split(s)) == [] <==> Blank(s)
  {
    if s != [] {
      var rest := Split(s[1..]);
      CleanPartsEmptyIffBlank(s[1..]);
      BlankCons(s);
      if s[0] == ',' {
        assert Split(s) == [[]] + rest;
        CleanPartsCons([], rest);
      } else {
        var first := [s[0]] + rest[0];
        assert Split(s) == [first] + rest[1..];
        CleanPartsCons(first, rest[1..]);
        AllSpaceCons(s[0], rest[0]);
        assert rest == [rest[0]] + rest[1..];
        CleanPartsCons(rest[0], rest[1..]);
      }
    }
  }

  /** The canonical form is empty exactly when the answer holds nothing but
      whitespace and commas: "", "   " and ",,," all give []. */
  lemma NormalizeEmptyIffBlank(answer: string)
    ensures NormalizeAnswer(answer) == [] <==> Blank(answer)
  {
    NormalizeAnswerSpec(answer);
    CleanPartsEmptyIffBlank(answer);
  }

  // ---------------------------------------------------------------------------
  // Properties of answers_match

  /** Reordering the comma-separated parts of an answer never changes whether
      it matches. */
  lemma MatchPermutationInvariant(a: string, a2: string, b: string)
    requires multiset(Split(a)) == multiset(Split(a2))
    ensures AnswersMatch(a, b) <==> AnswersMatch(a2, b)
  {
    CleanPartsPermutation(Split(a), Split(a2));
    NormalizeEqualIffSameParts(a, a2);
  }

  /** Matching is reflexive and symmetric, so reordering the parts of either
      answer never changes whether they match. */
  lemma MatchReflexiveSymmetric(a: string, b: string)
    ensures AnswersMatch(a, a)
    ensures AnswersMatch(a, b) <==> AnswersMatch(b, a)
  {
  }

  /** A proper sub-multiset of the parts does not match ("red, blue" against
      "red, blue, yellow"), since the part counts differ. */
  lemma MatchRejectsDifferentPartCount(a: string, b: string)
    requires |CleanParts(Split(a))| != |CleanParts(Split(b))|
    ensures !AnswersMatch(a, b)
  {
    NormalizeAnswerSpec(a);
    NormalizeAnswerSpec(b);
  }

  /** The empty answer matches exactly the answers that canonicalise to []. */
  lemma EmptyMatchesOnlyBlank(b: string)
    ensures AnswersMatch("", b) <==> Blank(b)
  {
    NormalizeEmptyIffBlank(b);
  }

  // ---------------------------------------------------------------------------
  // Properties of format_answer_display

  /** " " in front of each part after the first. */
  function SpaceAfterComma(parts: seq<string>): (r: seq<string>)
    ensures |r| == |parts|
  {
    if parts == [] then [] else [" " + parts[0]] + SpaceAfterComma(parts[1..])
  }

  lemma {:induction false} SplitDisplayJoin(ds: seq<string>)
    requires |ds| >= 1
    requires NoComma(ds)
    ensures Split(Join(ds, ", ")) == [ds[0]] + SpaceAfterComma(ds[1..])
  {
    if |ds| == 1 {
      SplitNoComma(ds[0]);
    } else {
      var t := Join(ds[1..], ", ");
      SplitDisplayJoin(ds[1..]);
      assert Join(ds, ", ") == ds[0] + "," + (" " + t);
      SplitAfterPart(ds[0], " " + t);
      assert (" " + t)[1..] == t;
      assert Split(t)[1..] == SpaceAfterComma(ds[2..]);
      assert ds[1..][1..] == ds[2..];
    }
  }

  lemma {:induction false} DisplayPartsSpaced(ds: seq<string>)
    requires forall i :: 0 <= i < |ds| ==> IsDisplayPart(ds[i])
    ensures DisplayParts(SpaceAfterComma(ds)) == ds
  {
    if ds != [] {
      StripLeadingSpace(' ', ds[0]);
      StripStripped(ds[0]);
      DisplayPartsSpaced(ds[1..]);
    }
  }

  /** Splitting the display form again yields the same display parts, with
      their case: the display form loses nothing but surrounding whitespace and
      empty parts. */
  lemma DisplayPartsOfFormat(answer: string)
    ensures DisplayParts(Split(FormatAnswerDisplay(answer))) == DisplayParts(Split(answer))
  {
    var ds := DisplayParts(Split(answer));
    FormatIsJoin(answer);
    DisplayPartsClean(Split(answer));
    if ds == [] {
      assert Split([]) == [[]];
    } else {
      SplitParts(answer);
      DisplayPartsNoComma(Split(answer));
      SplitDisplayJoin(ds);
      StripStripped(ds[0]);
      DisplayPartsSpaced(ds[1..]);
      DisplayPartsAppend([ds[0]], SpaceAfterComma(ds[1..]));
      assert [ds[0]] + ds[1..] == ds;
    }
  }

  /** Formatting twice is formatting once. */
  lemma FormatIdempotent(answer: string)
    ensures FormatAnswerDisplay(FormatAnswerDisplay(answer)) == FormatAnswerDisplay(answer)
  {
    FormatIsJoin(answer);
    FormatIsJoin(FormatAnswerDisplay(answer));
    DisplayPartsOfFormat(answer);
  }

  /** The display form canonicalises to the same form as the raw answer, so
      comparing against the stored display answer grades like comparing
      against the original answer. */
  lemma NormalizeOfFormat(answer: string)
    ensures NormalizeAnswer(FormatAnswerDisplay(answer)) == NormalizeAnswer(answer)
  {
    var f := FormatAnswerDisplay(answer);
    DisplayPartsOfFormat(answer);
    CleanIsLoweredDisplay(Split(f));
    CleanIsLoweredDisplay(Split(answer));
    NormalizeIsSortedCleanParts(f);
    NormalizeIsSortedCleanParts(answer);
  }

  /** The display form is empty exactly when the answer is blank. */
  lemma FormatEmptyIffBlank(answer: string)
    ensures FormatAnswerDisplay(answer) == [] <==> Blank(answer)
  {
    NormalizeEmptyIffBlank(answer);
    FormatIsJoin(answer);
    var ps := Split(answer);
    CleanIsLoweredDisplay(ps);
    DisplayPartsClean(ps);
    var ds := DisplayParts(ps);
    if ds != [] {
      assert |Join(ds, ", ")| >= |ds[0]| by { JoinLength(ds, ", "); }
    }
  }

  lemma JoinLength(parts: seq<string>, sep: string)
    requires parts != []
    ensures |Join(parts, sep)| >= |parts[0]|
  {
  }

  /** Display keeps case: lower-casing the display parts gives the canonical
      parts, in the original order (before sorting). */
  lemma FormatKeepsCase(answer: string)
    ensures LowerAll(DisplayParts(Split(answer))) == CleanParts(Split(answer))
  {
    CleanIsLoweredDisplay(Split(answer));
  }
}
