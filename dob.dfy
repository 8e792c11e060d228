/** `extractDOB` of the upload page: one case-insensitive regular expression
    with three top-level alternatives, searched JavaScript style (the leftmost
    start position wins; at one position the alternatives are tried in order),
    whose captured groups are rearranged into a `/`-separated date. */
module Dob {
  import opened Text

  /** The label alternatives of the first branch, in the order the pattern
      lists them. */
  const LabelForms: seq<string> := ["Date of Birth", "DOB", "DOB:", "Date of birth", "Date of Birth:"]

  /** What `extractDOB` returns when nothing matches. */
  const NotFound: string := "Not found"

  /** The captured groups of a match, one constructor per top-level
      alternative: groups 1-3, 4-6 and 7-9 of the pattern. */
  datatype Groups =
    | Labelled(day: string, month: string, year: string)
    | YearFirst(year: string, month: string, day: string)
    | Short(day: string, month: string, year: string)

  predicate WellFormed(g: Groups) {
    match g
    case Labelled(d, m, y) => |d| == 2 && |m| == 2 && |y| == 4 && AllDigits(d) && AllDigits(m) && AllDigits(y)
    case YearFirst(y, m, d) => |y| == 4 && |m| == 2 && |d| == 2 && AllDigits(y) && AllDigits(m) && AllDigits(d)
    case Short(d, m, y) => 1 <= |d| <= 2 && 1 <= |m| <= 2 && |y| == 2 && AllDigits(d) && AllDigits(m) && AllDigits(y)
  }

  // ---------------------------------------------------------------------------
  // The matcher

  /** `form` matches at `i`, character by character, letters compared
      without regard to case. */
  predicate LabelAt(t: string, i: nat, form: string)
    requires i <= |t|
    ensures LabelAt(t, i, form) ==> i + |form| <= |t|
    decreases |form|
  {
    form == [] || (i < |t| && Fold(t[i]) == Fold(form[0]) && LabelAt(t, i + 1, form[1..]))
  }

  /** `\d{n}` matches at `i`. */
  predicate DigitsAt(t: string, i: nat, n: nat) {
    i + n <= |t| && forall k :: i <= k < i + n ==> IsDigit(t[k])
  }

  /** `[\/-]` matches at `i`. */
  predicate SeparatorAt(t: string, i: nat) {
    i < |t| && IsSeparator(t[i])
  }

  /** `\s*`, taken greedily. Giving spaces back never lets the rest of the
      first branch match, because a digit must follow, so the greedy end is
      the only one that matters. */
  function SkipSpaces(t: string, i: nat): (j: nat)
    requires i <= |t|
    ensures i <= j <= |t|
    ensures forall k :: i <= k < j ==> IsSpace(t[k])
    ensures j < |t| ==> !IsSpace(t[j])
    decreases |t| - i
  {
    if i < |t| && IsSpace(t[i]) then SkipSpaces(t, i + 1) else i
  }

  /** `(\d{2})[\/-](\d{2})[\/-](\d{4})` at `k`. */
  function DayMonthYearAt(t: string, k: nat): (r: Option<Groups>)
    ensures r.Some? ==>
      && k + 10 <= |t| && IsSeparator(t[k + 2]) && IsSeparator(t[k + 5])
      && r.value == Labelled(t[k..k + 2], t[k + 3..k + 5], t[k + 6..k + 10])
    ensures r.Some? ==> WellFormed(r.value)
  {
    if DigitsAt(t, k, 2) && SeparatorAt(t, k + 2) && DigitsAt(t, k + 3, 2)
       && SeparatorAt(t, k + 5) && DigitsAt(t, k + 6, 4)
    then Some(Labelled(t[k..k + 2], t[k + 3..k + 5], t[k + 6..k + 10]))
    else None
  }

  /** Label form `m` fits at `i` and the date follows its white space. */
  predicate FormMatches(t: string, i: nat, m: nat)
    requires i <= |t| && m < |LabelForms|
  {
    LabelAt(t, i, LabelForms[m]) && DayMonthYearAt(t, SkipSpaces(t, i + |LabelForms[m]|)).Some?
  }

  /** First branch, trying the label forms from the `n`-th on: a label,
      `\s*`, then day, month and four-digit year. A match comes from the
      first form, from `n` on, that the text at `i` spells and that the date
      follows. */
  function LabelledFrom(t: string, i: nat, n: nat): (r: Option<Groups>)
    requires i <= |t| && n <= |LabelForms|
    ensures r.Some? ==> r.value.Labelled? && WellFormed(r.value)
    ensures r.Some? ==>
      exists m ::
        && n <= m < |LabelForms| && FormMatches(t, i, m)
        && DayMonthYearAt(t, SkipSpaces(t, i + |LabelForms[m]|)) == r
        && forall m' :: n <= m' < m ==> !FormMatches(t, i, m')
    ensures r.None? ==> forall m :: n <= m < |LabelForms| ==> !FormMatches(t, i, m)
    decreases |LabelForms| - n
  {
    if n == |LabelForms| then None
    else if FormMatches(t, i, n) then
      DayMonthYearAt(t, SkipSpaces(t, i + |LabelForms[n]|))
    else LabelledFrom(t, i, n + 1)
  }

  /** Second branch: `(\d{4})[\/-](\d{2})[\/-](\d{2})` at `i`. */
  function YearFirstAt(t: string, i: nat): (r: Option<Groups>)
    ensures r.Some? ==>
      && i + 10 <= |t| && IsSeparator(t[i + 4]) && IsSeparator(t[i + 7])
      && r.value == YearFirst(t[i..i + 4], t[i + 5..i + 7], t[i + 8..i + 10])
    ensures r.Some? ==> WellFormed(r.value)
  {
    if DigitsAt(t, i, 4) && SeparatorAt(t, i + 4) && DigitsAt(t, i + 5, 2)
       && SeparatorAt(t, i + 7) && DigitsAt(t, i + 8, 2)
    then Some(YearFirst(t[i..i + 4], t[i + 5..i + 7], t[i + 8..i + 10]))
    else None
  }

  /** `\d{1,2}` at `i`, greedy: the number of digits taken, 0 when it fails.
      Backing off from two digits to one cannot help, since the character
      after the first digit is then a digit and not a separator. */
  function NumberLength(t: string, i: nat): (n: nat)
    ensures n <= 2 && (n > 0 ==> DigitsAt(t, i, n))
    ensures n == 0 <==> !(i < |t| && IsDigit(t[i]))
    ensures n == 1 ==> !(i + 1 < |t| && IsDigit(t[i + 1]))
  {
    if i + 1 < |t| && IsDigit(t[i]) && IsDigit(t[i + 1]) then 2
    else if i < |t| && IsDigit(t[i]) then 1
    else 0
  }

  /** Third branch: `(\d{1,2})[\/-](\d{1,2})[\/-](\d{2})` at `i`. */
  function ShortAt(t: string, i: nat): (r: Option<Groups>)
    ensures r.Some? ==> r.value.Short? && WellFormed(r.value)
    ensures r.Some? ==>
      var a, b := |r.value.day|, |r.value.month|;
      i + a + b + 4 <= |t| && IsSeparator(t[i + a]) && IsSeparator(t[i + a + 1 + b])
      && r.value == Short(t[i..i + a], t[i + a + 1..i + a + 1 + b], t[i + a + b + 2..i + a + b + 4])
  {
    var a := NumberLength(t, i);
    var b := NumberLength(t, i + a + 1);
    if a > 0 && SeparatorAt(t, i + a) && b > 0 && SeparatorAt(t, i + a + 1 + b)
       && DigitsAt(t, i + a + b + 2, 2)
    then Some(Short(t[i..i + a], t[i + a + 1..i + a + 1 + b], t[i + a + b + 2..i + a + b + 4]))
    else None
  }

  /** The whole pattern at start position `i`: the alternatives in order. */
  function MatchAt(t: string, i: nat): (r: Option<Groups>)
    requires i <= |t|
    ensures r.Some? ==> WellFormed(r.value)
    ensures r.Some? && r.value.Labelled? ==> r == LabelledFrom(t, i, 0)
    ensures r.Some? && r.value.YearFirst? ==> LabelledFrom(t, i, 0) == None && r == YearFirstAt(t, i)
    ensures r.Some? && r.value.Short? ==>
      LabelledFrom(t, i, 0) == None && YearFirstAt(t, i) == None && r == ShortAt(t, i)
    ensures r.None? <==> LabelledFrom(t, i, 0) == None && YearFirstAt(t, i) == None && ShortAt(t, i) == None
  {
    var l := LabelledFrom(t, i, 0);
    if l.Some? then l
    else
      var y := YearFirstAt(t, i);
      if y.Some? then y else ShortAt(t, i)
  }

  /** The scan of `String.prototype.match` with a non-global pattern: try
      the start positions `i`, `i + 1`, ..., `n` in turn and return the first
      match found. */
  function FirstMatch<G>(matchAt: nat -> Option<G>, n: nat, i: nat): (r: Option<G>)
    requires i <= n
    ensures r.Some? ==> exists j :: i <= j <= n && matchAt(j) == r
    decreases n - i
  {
    if matchAt(i).Some? then matchAt(i)
    else if i == n then None
    else FirstMatch(matchAt, n, i + 1)
  }

  /** The pattern searched for in `t` from position `i` on. */
  function Search(t: string, i: nat): (r: Option<Groups>)
    requires i <= |t|
    ensures r.Some? ==> WellFormed(r.value)
  {
    FirstMatch((j: nat) => if j <= |t| then MatchAt(t, j) else None, |t|, i)
  }

  // ---------------------------------------------------------------------------
  // Rendering and the extractor

  /** The century prefix of a two-digit year: below 50 is the 2000s,
      otherwise the 1900s. */
  function Century(yy: string): (c: string)
    requires AllDigits(yy)
    ensures |c| == 2 && AllDigits(c)
    ensures c == "20" <==> DigitsValue(yy) < 50
  {
    if DigitsValue(yy) < 50 then "20" else "19"
  }

  /** The template literal of each branch: groups 1/2/3, groups 5/6/4, and
      groups 7/8 with the widened year. */
  function Render(g: Groups): (r: string)
    requires WellFormed(g)
    ensures Split(r, '/') ==
      match g
      case Labelled(d, m, y) => [d, m, y]
      case YearFirst(y, m, d) => [m, d, y]
      case Short(d, m, yy) => [d, m, Century(yy) + yy]
  {
    match g
    case Labelled(d, m, y) =>
      ThreeFields(d, m, y);
      d + "/" + m + "/" + y
    case YearFirst(y, m, d) =>
      ThreeFields(m, d, y);
      m + "/" + d + "/" + y
    case Short(d, m, yy) =>
      assert AllDigits(Century(yy) + yy);
      ThreeFields(d, m, Century(yy) + yy);
      assert d + "/" + m + "/" + Century(yy) + yy == d + "/" + m + "/" + (Century(yy) + yy);
      d + "/" + m + "/" + Century(yy) + yy
  }

  /** `extractDOB`: the sentinel exactly when the search fails, otherwise a
      date of shape `a/b/yyyy`. */
  function ExtractDob(text: string): (r: string)
    ensures r == NotFound <==> Search(text, 0) == None
    ensures r != NotFound ==> DateShaped(r)
  {
    match Search(text, 0)
    case None => NotFound
    case Some(g) =>
      RenderIsDateShaped(g);
      NotFoundIsNoDate();
      Render(g)
  }

  /** An independent description of a rendered date: three `/`-separated
      fields, one or two digits, one or two digits, four digits. */
  predicate DateShaped(r: string) {
    var f := Split(r, '/');
    |f| == 3 && 1 <= |f[0]| <= 2 && 1 <= |f[1]| <= 2 && |f[2]| == 4
    && AllDigits(f[0]) && AllDigits(f[1]) && AllDigits(f[2])
  }

  /** No match starts before position `p`. */
  predicate NoMatchBefore(t: string, p: nat)
    requires p <= |t|
  {
    forall j :: 0 <= j < p ==> MatchAt(t, j) == None
  }

  // ---------------------------------------------------------------------------
  // Search is leftmost-first

  /** If a match starts at `i` and none starts earlier (from `start` on), the
      scan returns that match. */
  lemma {:induction false} FirstMatchFinds<G>(matchAt: nat -> Option<G>, n: nat, start: nat, i: nat)
    requires start <= i <= n
    requires forall j :: start <= j < i ==> matchAt(j) == None
    requires matchAt(i).Some?
    ensures FirstMatch(matchAt, n, start) == matchAt(i)
    decreases i - start
  {
    if start < i {
      FirstMatchFinds(matchAt, n, start + 1, i);
    }
  }

  /** Whatever the scan returns is a match at some position before which
      nothing matches. */
  lemma {:induction false} FirstMatchIsLeftmost<G>(matchAt: nat -> Option<G>, n: nat, start: nat) returns (i: nat)
    requires start <= n
    requires FirstMatch(matchAt, n, start).Some?
    ensures start <= i <= n && matchAt(i) == FirstMatch(matchAt, n, start)
    ensures forall j :: start <= j < i ==> matchAt(j) == None
    decreases n - start
  {
    if matchAt(start).Some? {
      i := start;
    } else {
      i := FirstMatchIsLeftmost(matchAt, n, start + 1);
    }
  }

  /** The scan fails exactly when no position from `start` on matches. */
  lemma {:induction false} FirstMatchFails<G>(matchAt: nat -> Option<G>, n: nat, start: nat)
    requires start <= n
    ensures FirstMatch(matchAt, n, start) == None <==> forall j :: start <= j <= n ==> matchAt(j) == None
    decreases n - start
  {
    if start < n {
      FirstMatchFails(matchAt, n, start + 1);
    }
  }

  /** A match at `p` with none before it is what the search returns. */
  lemma SearchFindsLeftmost(t: string, p: nat, g: Groups)
    requires p <= |t| && NoMatchBefore(t, p) && MatchAt(t, p) == Some(g)
    ensures Search(t, 0) == Some(g)
  {
    var f := (j: nat) => if j <= |t| then MatchAt(t, j) else None;
    assert forall j :: 0 <= j <= |t| ==> f(j) == MatchAt(t, j);
    FirstMatchFinds(f, |t|, 0, p);
  }

  /** What the search returns is a match at a position before which nothing
      matches. */
  lemma SearchIsLeftmost(t: string) returns (p: nat)
    requires Search(t, 0).Some?
    ensures p <= |t| && NoMatchBefore(t, p) && MatchAt(t, p) == Search(t, 0)
  {
    var f := (j: nat) => if j <= |t| then MatchAt(t, j) else None;
    assert forall j :: 0 <= j <= |t| ==> f(j) == MatchAt(t, j);
    p := FirstMatchIsLeftmost(f, |t|, 0);
  }

  /** The search fails exactly when no position of the text matches. */
  lemma SearchFailsIffNoMatch(t: string)
    ensures Search(t, 0) == None <==> forall j :: 0 <= j <= |t| ==> MatchAt(t, j) == None
  {
    var f := (j: nat) => if j <= |t| then MatchAt(t, j) else None;
    assert forall j :: 0 <= j <= |t| ==> f(j) == MatchAt(t, j);
    FirstMatchFails(f, |t|, 0);
  }

  // ---------------------------------------------------------------------------
  // Shape of the result

  /** Three runs of digits joined by `/` split back into those runs. */
  lemma ThreeFields(a: string, b: string, c: string)
    requires AllDigits(a) && AllDigits(b) && AllDigits(c)
    ensures Split(a + "/" + b + "/" + c, '/') == [a, b, c]
  {
    NoSlashInDigits(a);
    NoSlashInDigits(b);
    NoSlashInDigits(c);
    assert a + "/" + b + "/" + c == a + ['/'] + (b + ['/'] + c);
    SplitAfterField(a, '/', b + ['/'] + c);
    SplitAfterField(b, '/', c);
    SplitWithoutSeparator(c, '/');
  }

  lemma NoSlashInDigits(s: string)
    requires AllDigits(s)
    ensures '/' !in s
  {
    assert forall k :: 0 <= k < |s| ==> s[k] != '/';
  }

  lemma RenderIsDateShaped(g: Groups)
    requires WellFormed(g)
    ensures DateShaped(Render(g))
  {
    if g.Short? {
      assert AllDigits(Century(g.year) + g.year);
    }
  }

  /** The sentinel has no `/`, so it is never mistaken for a date. */
  lemma NotFoundIsNoDate()
    ensures !DateShaped(NotFound)
  {
    assert '/' !in NotFound;
    SplitWithoutSeparator(NotFound, '/');
  }

  /** `extractDOB` returns the sentinel exactly when no position of the text
      matches, and a date of shape `a/b/yyyy` otherwise. */
  lemma ExtractDobResult(text: string)
    ensures ExtractDob(text) == NotFound <==> forall j :: 0 <= j <= |text| ==> MatchAt(text, j) == None
    ensures ExtractDob(text) != NotFound <==> DateShaped(ExtractDob(text))
  {
    SearchFailsIffNoMatch(text);
    NotFoundIsNoDate();
  }

  /** A text without a digit never yields a date: every branch of the
      pattern needs one where its date starts. */
  lemma NoDigitNoDate(t: string)
    requires forall k :: 0 <= k < |t| ==> !IsDigit(t[k])
    ensures ExtractDob(t) == NotFound
  {
    forall j | 0 <= j <= |t|
      ensures MatchAt(t, j) == None
    {
      NoDigitNoMatchAt(t, j);
    }
    ExtractDobResult(t);
  }

  lemma NoDigitNoMatchAt(t: string, j: nat)
    requires j <= |t| && forall k :: 0 <= k < |t| ==> !IsDigit(t[k])
    ensures MatchAt(t, j) == None
  {
    forall m | 0 <= m < |LabelForms|
      ensures !FormMatches(t, j, m)
    {
      if LabelAt(t, j, LabelForms[m]) {
        var q := SkipSpaces(t, j + |LabelForms[m]|);
        assert !DigitsAt(t, q, 2);
      }
    }
    if j < |t| {
      assert !IsDigit(t[j]);
    }
    assert !DigitsAt(t, j, 4);
    assert NumberLength(t, j) == 0;
  }


  // ---------------------------------------------------------------------------
  // What each branch returns

  lemma {:induction false} LabelAtPointwise(t: string, i: nat, form: string)
    requires i <= |t|
    ensures LabelAt(t, i, form) <==>
      i + |form| <= |t| && forall k :: 0 <= k < |form| ==> Fold(t[i + k]) == Fold(form[k])
    decreases |form|
  {
    if form != [] && i < |t| {
      LabelAtPointwise(t, i + 1, form[1..]);
      assert forall k :: 1 <= k < |form| ==> form[k] == form[1..][k - 1];
    }
  }

  lemma SkipSpacesOver(t: string, i: nat, n: nat)
    requires i + n < |t|
    requires forall k :: i <= k < i + n ==> IsSpace(t[k])
    requires !IsSpace(t[i + n])
    ensures SkipSpaces(t, i) == i + n
    decreases n
  {
    if n > 0 {
      SkipSpacesOver(t, i + 1, n - 1);
    }
  }

  /** No label form starts with a digit, so the first branch fails there. */
  lemma {:induction false} NoLabelAtDigit(t: string, i: nat, n: nat)
    requires i < |t| && IsDigit(t[i]) && n <= |LabelForms|
    ensures LabelledFrom(t, i, n) == None
    decreases |LabelForms| - n
  {
    if n < |LabelForms| {
      FirstLetterD(n);
      NotFormAt(t, i, n, 0);
      NoLabelAtDigit(t, i, n + 1);
    }
  }

  /** Every label form starts with `D`, which folds to no digit. */
  lemma FirstLetterD(n: nat)
    requires n < |LabelForms|
    ensures 0 < |LabelForms[n]| && !IsDigit(Fold(LabelForms[n][0]))
  {
    assert LabelForms[n][0] == 'D';
  }

  /** Day, month and year laid out from `k` on are read as such. */
  lemma DayMonthYearLaidOut(t: string, k: nat, day: string, month: string, year: string)
    requires k + 10 <= |t|
    requires t[k..k + 2] == day && t[k + 3..k + 5] == month && t[k + 6..k + 10] == year
    requires IsSeparator(t[k + 2]) && IsSeparator(t[k + 5])
    requires AllDigits(day) && AllDigits(month) && AllDigits(year)
    ensures DayMonthYearAt(t, k) == Some(Labelled(day, month, year))
  {
    assert forall j :: 0 <= j < 2 ==> t[k + j] == day[j];
    assert forall j :: 0 <= j < 2 ==> t[k + 3 + j] == month[j];
    assert forall j :: 0 <= j < 4 ==> t[k + 6 + j] == year[j];
  }

  /** Label form `n` fits at `p` and the date follows it. */
  lemma FormFits(t: string, p: nat, n: nat, date: Option<Groups>)
    requires p <= |t| && n < |LabelForms| && LabelAt(t, p, LabelForms[n])
    requires date.Some? && DayMonthYearAt(t, SkipSpaces(t, p + |LabelForms[n]|)) == date
    ensures LabelledFrom(t, p, n) == date
  {
  }

  /** Label form `n` fails at `p`, so the next form is tried. */
  lemma FormFails(t: string, p: nat, n: nat)
    requires p <= |t| && n < |LabelForms|
    requires LabelAt(t, p, LabelForms[n]) ==> DayMonthYearAt(t, SkipSpaces(t, p + |LabelForms[n]|)) == None
    ensures LabelledFrom(t, p, n) == LabelledFrom(t, p, n + 1)
  {
  }

  /** The text at `p` spells `form` up to case. */
  lemma SpelledAt(t: string, p: nat, tag: string, form: string)
    requires p + |tag| <= |t| && forall j :: 0 <= j < |tag| ==> t[p + j] == tag[j]
    requires |form| <= |tag| && forall j :: 0 <= j < |form| ==> Fold(tag[j]) == Fold(form[j])
    ensures LabelAt(t, p, form)
  {
    LabelAtPointwise(t, p, form);
  }

  /** After a label the text reads white space, then the date. */
  predicate DateAfter(t: string, q: nat, date: Option<Groups>)
    requires q <= |t|
  {
    date.Some? && DayMonthYearAt(t, SkipSpaces(t, q)) == date
  }

  lemma DateOfBirthTag(t: string, p: nat, tag: string, date: Option<Groups>)
    requires p + |tag| <= |t| && forall j :: 0 <= j < |tag| ==> t[p + j] == tag[j]
    requires SameLetters(tag, "Date of Birth") && DateAfter(t, p + |tag|, date)
    ensures LabelledFrom(t, p, 0) == date
  {
    assert LabelAt(t, p, LabelForms[0]) by { SpelledAt(t, p, tag, LabelForms[0]); }
    assert |LabelForms[0]| == |tag|;
    FormFits(t, p, 0, date);
  }

  lemma DobTag(t: string, p: nat, tag: string, date: Option<Groups>)
    requires p + |tag| <= |t| && forall j :: 0 <= j < |tag| ==> t[p + j] == tag[j]
    requires SameLetters(tag, "DOB") && DateAfter(t, p + |tag|, date)
    ensures LabelledFrom(t, p, 0) == date
  {
    assert Fold(t[p + 1]) == 'o' by {
      assert Fold(tag[1]) == Fold("DOB"[1]) == 'o';
    }
    NotFormAt(t, p, 0, 1);
    assert LabelledFrom(t, p, 0) == LabelledFrom(t, p, 1) by { FormFails(t, p, 0); }
    assert LabelAt(t, p, LabelForms[1]) by { SpelledAt(t, p, tag, LabelForms[1]); }
    assert |LabelForms[1]| == |tag|;
    FormFits(t, p, 1, date);
  }

  lemma DateOfBirthColonTag(t: string, p: nat, tag: string, date: Option<Groups>)
    requires p + |tag| <= |t| && forall j :: 0 <= j < |tag| ==> t[p + j] == tag[j]
    requires SameLetters(tag, "Date of Birth:") && DateAfter(t, p + |tag|, date)
    ensures LabelledFrom(t, p, 0) == date
  {
    assert t[p + 13] == ':' by {
      assert Fold(tag[13]) == Fold("Date of Birth:"[13]) == ':';
      FoldedColon(tag[13]);
    }
    assert Fold(t[p + 1]) == 'a' by {
      assert Fold(tag[1]) == Fold("Date of Birth:"[1]) == 'a';
    }
    assert LabelAt(t, p, LabelForms[4]) by { SpelledAt(t, p, tag, LabelForms[4]); }
    LongColonFormTried(t, p, date);
  }

  /** The forms are tried in order: both spellings without the colon stop
      at it, `DOB` and `DOB:` differ in the second letter, and the last form
      takes the colon. */
  lemma LongColonFormTried(t: string, p: nat, date: Option<Groups>)
    requires p + 14 <= |t| && t[p + 13] == ':' && Fold(t[p + 1]) == 'a'
    requires LabelAt(t, p, LabelForms[4]) && DateAfter(t, p + 14, date)
    ensures LabelledFrom(t, p, 0) == date
  {
    FirstFormsStop(t, p);
    MiddleFormsStop(t, p);
    FormFits(t, p, 4, date);
  }

  /** `Date of Birth` stops at the colon and `DOB` differs in its second
      letter. */
  lemma FirstFormsStop(t: string, p: nat)
    requires p + 14 <= |t| && t[p + 13] == ':' && Fold(t[p + 1]) == 'a'
    ensures LabelledFrom(t, p, 0) == LabelledFrom(t, p, 2)
  {
    ColonStops(t, p + 13);
    FormFails(t, p, 0);
    SecondLetterO(1);
    NotFormAt(t, p, 1, 1);
    FormFails(t, p, 1);
  }

  /** `DOB:` differs in its second letter and `Date of birth` stops at the
      colon. */
  lemma MiddleFormsStop(t: string, p: nat)
    requires p + 14 <= |t| && t[p + 13] == ':' && Fold(t[p + 1]) == 'a'
    ensures LabelledFrom(t, p, 2) == LabelledFrom(t, p, 4)
  {
    SecondLetterO(2);
    NotFormAt(t, p, 2, 1);
    FormFails(t, p, 2);
    ColonStops(t, p + 13);
    FormFails(t, p, 3);
  }

  /** The `DOB` forms have an `o` where `Date of Birth` has an `a`. */
  lemma SecondLetterO(n: nat)
    requires n == 1 || n == 2
    ensures 1 < |LabelForms[n]| && Fold(LabelForms[n][1]) != 'a'
  {
    assert LabelForms[n][1] == 'O';
  }

  lemma DobColonTag(t: string, p: nat, tag: string, date: Option<Groups>)
    requires p + |tag| <= |t| && forall j :: 0 <= j < |tag| ==> t[p + j] == tag[j]
    requires SameLetters(tag, "DOB:") && DateAfter(t, p + |tag|, date)
    ensures LabelledFrom(t, p, 0) == date
  {
    assert Fold(t[p + 1]) == 'o' by {
      assert Fold(tag[1]) == Fold("DOB:"[1]) == 'o';
    }
    NotFormAt(t, p, 0, 1);
    assert LabelledFrom(t, p, 0) == LabelledFrom(t, p, 1) by { FormFails(t, p, 0); }
    assert t[p + 3] == ':' by {
      assert Fold(tag[3]) == Fold("DOB:"[3]) == ':';
      FoldedColon(tag[3]);
    }
    ColonStops(t, p + 3);
    assert LabelledFrom(t, p, 1) == LabelledFrom(t, p, 2) by { FormFails(t, p, 1); }
    assert LabelAt(t, p, LabelForms[2]) by { SpelledAt(t, p, tag, LabelForms[2]); }
    assert |LabelForms[2]| == |tag|;
    FormFits(t, p, 2, date);
  }

  lemma FoldedColon(c: char)
    requires Fold(c) == ':'
    ensures c == ':'
  {
  }

  /** Form `n` does not fit at `p` when its `j`-th letter differs from the
      text's. */
  lemma NotFormAt(t: string, p: nat, n: nat, j: nat)
    requires n < |LabelForms| && j < |LabelForms[n]| && p + j < |t|
    requires Fold(t[p + j]) != Fold(LabelForms[n][j])
    ensures !LabelAt(t, p, LabelForms[n])
  {
    LabelAtPointwise(t, p, LabelForms[n]);
  }

  /** A label in any letter case (`Date of Birth` or `DOB`), an optional
      colon right after it, any run of white space, then
      `dd[/-]mm[/-]yyyy`: the date comes back as `dd/mm/yyyy`, provided no
      match starts earlier in the text. */
  lemma LabelledDate(t: string, pre: string, tag: string, spaces: string,
                     day: string, s1: char, month: string, s2: char, year: string, rest: string)
    requires t == pre + tag + spaces + day + [s1] + month + [s2] + year + rest
    requires SameLetters(tag, "Date of Birth") || SameLetters(tag, "Date of Birth:")
          || SameLetters(tag, "DOB") || SameLetters(tag, "DOB:")
    requires forall k :: 0 <= k < |spaces| ==> IsSpace(spaces[k])
    requires |day| == 2 && |month| == 2 && |year| == 4
    requires AllDigits(day) && AllDigits(month) && AllDigits(year)
    requires IsSeparator(s1) && IsSeparator(s2)
    requires NoMatchBefore(t, |pre|)
    ensures ExtractDob(t) == day + "/" + month + "/" + year
  {
    LabelledAt(t, pre, tag, spaces, day, s1, month, s2, year, rest);
    SearchFindsLeftmost(t, |pre|, Labelled(day, month, year));
  }

  /** The first branch matches where the label starts. */
  lemma LabelledAt(t: string, pre: string, tag: string, spaces: string,
                   day: string, s1: char, month: string, s2: char, year: string, rest: string)
    requires t == pre + tag + spaces + day + [s1] + month + [s2] + year + rest
    requires SameLetters(tag, "Date of Birth") || SameLetters(tag, "Date of Birth:")
          || SameLetters(tag, "DOB") || SameLetters(tag, "DOB:")
    requires forall k :: 0 <= k < |spaces| ==> IsSpace(spaces[k])
    requires |day| == 2 && |month| == 2 && |year| == 4
    requires AllDigits(day) && AllDigits(month) && AllDigits(year)
    requires IsSeparator(s1) && IsSeparator(s2)
    ensures |pre| <= |t| && MatchAt(t, |pre|) == Some(Labelled(day, month, year))
  {
    var p := |pre|;
    var date := Some(Labelled(day, month, year));
    assert forall j :: 0 <= j < |tag| ==> t[p + j] == tag[j] by {
      PrefixOf(t, pre + tag);
    }
    assert DateAfter(t, p + |tag|, date) by {
      DateAfterSpaces(t, pre + tag, spaces, day, s1, month, s2, year, rest);
    }
    AnyTag(t, p, tag, date);
  }

  /** `x` is where `t` starts. */
  lemma PrefixOf(t: string, x: string)
    requires |x| <= |t| && t[..|x|] == x
    ensures forall j :: 0 <= j < |x| ==> t[j] == x[j]
  {
    assert forall j :: 0 <= j < |x| ==> t[..|x|][j] == t[j];
  }

  /** Any of the four spellings, in any letter case, followed by the date. */
  lemma AnyTag(t: string, p: nat, tag: string, date: Option<Groups>)
    requires p + |tag| <= |t| && forall j :: 0 <= j < |tag| ==> t[p + j] == tag[j]
    requires SameLetters(tag, "Date of Birth") || SameLetters(tag, "Date of Birth:")
          || SameLetters(tag, "DOB") || SameLetters(tag, "DOB:")
    requires DateAfter(t, p + |tag|, date)
    ensures LabelledFrom(t, p, 0) == date
  {
    if SameLetters(tag, "Date of Birth") {
      DateOfBirthTag(t, p, tag, date);
    } else if SameLetters(tag, "DOB") {
      DobTag(t, p, tag, date);
    } else if SameLetters(tag, "Date of Birth:") {
      DateOfBirthColonTag(t, p, tag, date);
    } else {
      DobColonTag(t, p, tag, date);
    }
  }

  /** White space, then `dd[/-]mm[/-]yyyy`, read from where the spaces
      start. */
  lemma DateAfterSpaces(t: string, pre: string, spaces: string,
                        day: string, s1: char, month: string, s2: char, year: string, rest: string)
    requires t == pre + spaces + day + [s1] + month + [s2] + year + rest
    requires forall k :: 0 <= k < |spaces| ==> IsSpace(spaces[k])
    requires |day| == 2 && |month| == 2 && |year| == 4
    requires AllDigits(day) && AllDigits(month) && AllDigits(year)
    requires IsSeparator(s1) && IsSeparator(s2)
    ensures |pre| <= |t| && DateAfter(t, |pre|, Some(Labelled(day, month, year)))
  {
    var q := |pre|;
    var k := q + |spaces|;
    assert t[k..k + 2] == day && t[k + 2] == s1 && t[k + 3..k + 5] == month
        && t[k + 5] == s2 && t[k + 6..k + 10] == year;
    assert SkipSpaces(t, q) == k by {
      assert forall j :: 0 <= j < |spaces| ==> t[q + j] == spaces[j];
      assert t[k] == day[0] && IsDigit(day[0]);
      SkipSpacesOver(t, q, |spaces|);
    }
    DayMonthYearLaidOut(t, k, day, month, year);
  }

  /** Neither a space nor a digit at a colon: the date after a label that
      stops before the colon is not found. */
  lemma ColonStops(t: string, j: nat)
    requires j < |t| && t[j] == ':'
    ensures DayMonthYearAt(t, SkipSpaces(t, j)) == None
  {
  }

  /** `yyyy[/-]mm[/-]dd` comes back as `mm/dd/yyyy`: the second and third
      numbers, then the year. */
  lemma YearFirstDate(t: string, pre: string, year: string, s1: char, month: string, s2: char,
                      day: string, rest: string)
    requires t == pre + year + [s1] + month + [s2] + day + rest
    requires |year| == 4 && |month| == 2 && |day| == 2
    requires AllDigits(year) && AllDigits(month) && AllDigits(day)
    requires IsSeparator(s1) && IsSeparator(s2)
    requires NoMatchBefore(t, |pre|)
    ensures ExtractDob(t) == month + "/" + day + "/" + year
  {
    var p := |pre|;
    assert t[p..p + 4] == year;
    assert t[p + 4] == s1;
    assert t[p + 5..p + 7] == month;
    assert t[p + 7] == s2;
    assert t[p + 8..p + 10] == day;
    YearFirstLaidOut(t, p, year, month, day);
    SearchFindsLeftmost(t, p, YearFirst(year, month, day));
  }

  /** Year, month and day laid out from `p` on are read by the second
      branch. */
  lemma YearFirstLaidOut(t: string, p: nat, year: string, month: string, day: string)
    requires p + 10 <= |t|
    requires t[p..p + 4] == year && t[p + 5..p + 7] == month && t[p + 8..p + 10] == day
    requires IsSeparator(t[p + 4]) && IsSeparator(t[p + 7])
    requires AllDigits(year) && AllDigits(month) && AllDigits(day)
    ensures MatchAt(t, p) == Some(YearFirst(year, month, day))
  {
    assert forall j :: 0 <= j < 4 ==> t[p + j] == year[j];
    assert forall j :: 0 <= j < 2 ==> t[p + 5 + j] == month[j];
    assert forall j :: 0 <= j < 2 ==> t[p + 8 + j] == day[j];
    assert YearFirstAt(t, p) == Some(YearFirst(year, month, day));
    NoLabelAtDigit(t, p, 0);
  }

  /** `\d{1,2}` at `i` takes exactly the `n` digits found there. */
  lemma NumberLengthIs(t: string, i: nat, n: nat)
    requires 1 <= n <= 2 && i + n < |t|
    requires DigitsAt(t, i, n) && !IsDigit(t[i + n])
    ensures NumberLength(t, i) == n
  {
  }

  /** Short form laid out from `p` on, with a day of `a` and a month of `b`
      digits. */
  lemma ShortLaidOut(t: string, p: nat, a: nat, b: nat)
    requires 1 <= a <= 2 && 1 <= b <= 2 && p + a + b + 4 <= |t|
    requires DigitsAt(t, p, a) && DigitsAt(t, p + a + 1, b) && DigitsAt(t, p + a + b + 2, 2)
    requires IsSeparator(t[p + a]) && IsSeparator(t[p + a + 1 + b])
    ensures MatchAt(t, p) == Some(Short(t[p..p + a], t[p + a + 1..p + a + 1 + b], t[p + a + b + 2..p + a + b + 4]))
  {
    NumberLengthIs(t, p, a);
    NumberLengthIs(t, p + a + 1, b);
    assert ShortAt(t, p) == Some(Short(t[p..p + a], t[p + a + 1..p + a + 1 + b], t[p + a + b + 2..p + a + b + 4]));
    assert IsDigit(t[p]);
    OnlyShortAt(t, p, a);
  }

  /** A digit followed by a separator within two places starts neither a
      label nor a four-digit year. */
  lemma OnlyShortAt(t: string, p: nat, a: nat)
    requires 1 <= a <= 2 && p + a < |t| && IsDigit(t[p]) && IsSeparator(t[p + a])
    ensures MatchAt(t, p) == ShortAt(t, p)
  {
    NoLabelAtDigit(t, p, 0);
    assert !IsDigit(t[p + a]);
  }

  /** `d{1,2}[/-]d{1,2}[/-]yy` comes back with day and month as written and
      the year widened by the century rule. This branch also fires on the
      first two digits of a four-digit year when no label precedes the date. */
  lemma ShortDate(t: string, pre: string, day: string, s1: char, month: string, s2: char,
                  yy: string, rest: string)
    requires t == pre + day + [s1] + month + [s2] + yy + rest
    requires 1 <= |day| <= 2 && 1 <= |month| <= 2 && |yy| == 2
    requires AllDigits(day) && AllDigits(month) && AllDigits(yy)
    requires IsSeparator(s1) && IsSeparator(s2)
    requires NoMatchBefore(t, |pre|)
    ensures ExtractDob(t) == day + "/" + month + "/" + Century(yy) + yy
  {
    var p, a, b := |pre|, |day|, |month|;
    assert t[p..p + a] == day && t[p + a] == s1 && t[p + a + 1..p + a + 1 + b] == month
        && t[p + a + 1 + b] == s2 && t[p + a + b + 2..p + a + b + 4] == yy;
    assert DigitsAt(t, p, a) by {
      assert forall j :: 0 <= j < a ==> t[p + j] == day[j];
    }
    assert DigitsAt(t, p + a + 1, b) by {
      assert forall j :: 0 <= j < b ==> t[p + a + 1 + j] == month[j];
    }
    assert DigitsAt(t, p + a + b + 2, 2) by {
      assert forall j :: 0 <= j < 2 ==> t[p + a + b + 2 + j] == yy[j];
    }
    ShortLaidOut(t, p, a, b);
    SearchFindsLeftmost(t, p, Short(day, month, yy));
  }

  lemma TwoDigitsValue(s: string)
    requires |s| == 2 && AllDigits(s)
    ensures DigitsValue(s) == 10 * (s[0] as int - '0' as int) + (s[1] as int - '0' as int)
  {
    assert s[..1][..0] == [];
    assert DigitsValue(s[..1]) == s[0] as int - '0' as int;
  }

  lemma AppendTwoDigits(a: string, b: string)
    requires |b| == 2 && AllDigits(a) && AllDigits(b)
    ensures AllDigits(a + b)
    ensures DigitsValue(a + b) == DigitsValue(a) * 100 + DigitsValue(b)
  {
    var s := a + b;
    assert s[..|s| - 1] == a + [b[0]];
    assert (a + [b[0]])[..|a|] == a;
    TwoDigitsValue(b);
  }

  /** The widened two-digit year lies in 1950..2049 and keeps its last two
      digits; it is in the 2000s exactly when the two digits are below 50. */
  lemma CenturyWindow(yy: string)
    requires |yy| == 2 && AllDigits(yy)
    ensures AllDigits(Century(yy) + yy)
    ensures 1950 <= DigitsValue(Century(yy) + yy) <= 2049
    ensures DigitsValue(Century(yy) + yy) % 100 == DigitsValue(yy)
    ensures DigitsValue(yy) < 50 <==> DigitsValue(Century(yy) + yy) >= 2000
  {
    var c, v := Century(yy), DigitsValue(yy);
    assert v < 100 by { TwoDigitsValue(yy); }
    assert DigitsValue(c) == if v < 50 then 20 else 19 by { CenturyValue(yy); }
    assert AllDigits(c + yy) && DigitsValue(c + yy) == DigitsValue(c) * 100 + v by {
      AppendTwoDigits(c, yy);
    }
    WindowArithmetic(DigitsValue(c), v);
  }

  lemma CenturyValue(yy: string)
    requires AllDigits(yy)
    ensures DigitsValue(Century(yy)) == if DigitsValue(yy) < 50 then 20 else 19
  {
    var c := Century(yy);
    TwoDigitsValue(c);
    if DigitsValue(yy) < 50 {
      assert c == "20";
    } else {
      assert c == "19";
    }
  }

  lemma WindowArithmetic(c: int, v: int)
    requires 0 <= v < 100 && c == (if v < 50 then 20 else 19)
    ensures 1950 <= c * 100 + v <= 2049
    ensures (c * 100 + v) % 100 == v
    ensures v < 50 <==> c * 100 + v >= 2000
  {
    if v < 50 {
      assert c * 100 + v == 2000 + v;
    } else {
      assert c * 100 + v == 1900 + v;
    }
  }

  // ---------------------------------------------------------------------------
  // Worked examples

  lemma LabelledExample(t: string)
    requires t == "DOB: 05/08/1998"
    ensures ExtractDob(t) == "05/08/1998"
  {
    assert "05" + "/" + "08" + "/" + "1998" == "05/08/1998";
    assert t == "" + "DOB:" + " " + "05" + ['/'] + "08" + ['/'] + "1998" + "";
    assert SameLetters("DOB:", "DOB:");
    LabelledDate(t, "", "DOB:", " ", "05", '/', "08", '/', "1998", "");
  }

  lemma YearFirstExample(t: string)
    requires t == "1998-08-05"
    ensures ExtractDob(t) == "08/05/1998"
  {
    assert "08" + "/" + "05" + "/" + "1998" == "08/05/1998";
    assert t == "" + "1998" + ['-'] + "08" + ['-'] + "05" + "";
    YearFirstDate(t, "", "1998", '-', "08", '-', "05", "");
  }

  lemma ShortExample(t: string)
    requires t == "5/8/98"
    ensures ExtractDob(t) == "5/8/1998"
  {
    assert "5" + "/" + "8" + "/" + Century("98") + "98" == "5/8/1998";
    assert t == "" + "5" + ['/'] + "8" + ['/'] + "98" + "";
    ShortDate(t, "", "5", '/', "8", '/', "98", "");
  }

  lemma CenturyExample(t: string)
    requires t == "01/02/49"
    ensures ExtractDob(t) == "01/02/2049"
  {
    assert Century("49") == "20" by { TwoDigitsValue("49"); }
    assert "01" + "/" + "02" + "/" + Century("49") + "49" == "01/02/2049";
    assert t == "" + "01" + ['/'] + "02" + ['/'] + "49" + "";
    ShortDate(t, "", "01", '/', "02", '/', "49", "");
  }

  /** A bare four-digit year is read by the short branch, which stops after
      its first two digits. */
  lemma BareDateExample(t: string)
    requires t == "05/08/1998"
    ensures ExtractDob(t) == "05/08/2019"
  {
    assert Century("19") == "20" by { TwoDigitsValue("19"); }
    assert "05" + "/" + "08" + "/" + Century("19") + "19" == "05/08/2019";
    assert t == "" + "05" + ['/'] + "08" + ['/'] + "19" + "98";
    ShortDate(t, "", "05", '/', "08", '/', "19", "98");
  }
}
