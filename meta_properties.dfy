/**
 * What `parse_meta` promises about the record it returns, stated against
 * independent per-field definitions over the input lines and proved for
 * the fold that `ParseSourceData.ParseMeta` computes.
 */
module MetaProperties {
  import opened Wrappers
  import opened Text
  import opened PyInt
  import opened PyDate
  import opened ParseSourceData

  /** What line `l` stores under field `f`; `None` when it stores nothing there. */
  function Assigned(l: string, f: Field): Option<Value> {
    var v := ValueOf(l);
    match f
    case Title => if TagOf(l) == T1 then Some(Str(v)) else None
    case JournalName => if TagOf(l) == JF then Some(Str(v)) else None
    case Volume => if TagOf(l) == VL then IntValue(ParseInt(v)) else None
    case StartPage => if TagOf(l) == SP then IntValue(ParseInt(v)) else None
    case EndPage => if TagOf(l) == EP then IntValue(ParseInt(v)) else None
    case DateYear => if TagOf(l) == PY && ParseDate(v).Some? then Some(Int(ParseDate(v).value.year)) else None
    case DateMonth => if TagOf(l) == PY && ParseDate(v).Some? then Some(Int(ParseDate(v).value.month)) else None
    case DoiUrl => if TagOf(l) == UR then Some(Str(v)) else None
    case Doi => if TagOf(l) == M3 then Some(Str(v)) else None
    case PageLength => None
  }

  /** What each line stores under `f`, line by line. */
  function Column(lines: seq<string>, f: Field): (c: seq<Option<Value>>)
    ensures |c| == |lines|
    ensures forall i :: 0 <= i < |lines| ==> c[i] == Assigned(lines[i], f)
  {
    seq(|lines|, i requires 0 <= i < |lines| => Assigned(lines[i], f))
  }

  /** The last present entry of `xs`. */
  function LastSome<T>(xs: seq<Option<T>>): Option<T>
    decreases |xs|
  {
    if xs == [] then None
    else if xs[|xs| - 1].Some? then xs[|xs| - 1]
    else LastSome(xs[..|xs| - 1])
  }

  ghost predicate IsLastSome<T>(xs: seq<Option<T>>, i: int) {
    0 <= i < |xs| && xs[i].Some? && forall j :: i < j < |xs| ==> xs[j].None?
  }

  lemma {:induction false} LastSomeIsLast<T>(xs: seq<Option<T>>)
    ensures LastSome(xs).None? <==> forall i :: 0 <= i < |xs| ==> xs[i].None?
    ensures forall i :: IsLastSome(xs, i) ==> LastSome(xs) == xs[i]
    decreases |xs|
  {
    if xs != [] {
      var n := |xs| - 1;
      var init := xs[..n];
      assert forall i :: 0 <= i < n ==> init[i] == xs[i];
      LastSomeIsLast(init);
      if xs[n].None? {
        assert LastSome(xs) == LastSome(init);
        forall i | IsLastSome(xs, i)
          ensures LastSome(xs) == xs[i]
        {
          assert IsLastSome(init, i);
        }
      }
    }
  }

  /** The value stored under `f` by the last line of `lines` that stores one. */
  function LastAssigned(lines: seq<string>, f: Field): Option<Value> {
    LastSome(Column(lines, f))
  }

  /** Line `i` stores under `f` and no later line does. */
  ghost predicate IsLastAssignment(lines: seq<string>, i: int, f: Field) {
    0 <= i < |lines| && Assigned(lines[i], f).Some? &&
    forall j :: i < j < |lines| ==> Assigned(lines[j], f).None?
  }

  /** The text of every `AU` line, in file order. */
  function AuthorsOf(lines: seq<string>): seq<string> {
    if lines == [] then []
    else (if TagOf(lines[0]) == AU then [ValueOf(lines[0])] else []) + AuthorsOf(lines[1..])
  }

  /** A line whose value raises: a `VL` that is not an integer, a `PY` that is not a date. */
  predicate IsFatal(l: string) {
    (TagOf(l) == VL && ParseInt(ValueOf(l)).None?) ||
    (TagOf(l) == PY && ParseDate(ValueOf(l)).None?)
  }

  function FatalError(l: string): Error {
    if TagOf(l) == VL then InvalidVolume(ValueOf(l)) else InvalidDate(ValueOf(l))
  }

  // ---- one line ----

  /**
   * A line changes only the field it stores, or appends one author, and a
   * line with an unknown tag changes nothing.
   */
  lemma StepTouchesOneField(p: Record, l: string, f: Field)
    requires Step(p, l).Ok?
    ensures Get(Step(p, l).value, f) == if Assigned(l, f).Some? then Assigned(l, f) else Get(p, f)
    ensures Step(p, l).value.authors == p.authors + (if TagOf(l) == AU then [ValueOf(l)] else [])
    ensures Step(p, l).value.id == p.id
    ensures TagOf(l) == Other ==> Step(p, l) == Ok(p)
  {
    StepCases(p, l);
  }

  /** Step raises exactly on fatal lines, with that line's error. */
  lemma StepFails(p: Record, l: string)
    ensures Step(p, l).Err? <==> IsFatal(l)
    ensures Step(p, l).Err? ==> Step(p, l).error == FatalError(l)
  {
    StepCases(p, l);
  }

  /** The tag of the lines that store under `f`. */
  function FieldTag(f: Field): Tag {
    match f
    case Title => T1
    case JournalName => JF
    case Volume => VL
    case StartPage => SP
    case EndPage => EP
    case DateYear => PY
    case DateMonth => PY
    case DoiUrl => UR
    case Doi => M3
    case PageLength => Other
  }

  /** Only lines tagged for `f` store under `f`, and no line stores `page_length`. */
  lemma AssignedTag(l: string, f: Field)
    requires Assigned(l, f).Some?
    ensures f != PageLength && TagOf(l) == FieldTag(f)
  {
  }

  /** No line stores under two fields, except that a date line stores year and month together. */
  lemma OneFieldPerLine(l: string, f: Field, g: Field)
    requires f != g && Assigned(l, f).Some? && Assigned(l, g).Some?
    ensures (f == DateYear && g == DateMonth) || (f == DateMonth && g == DateYear)
  {
    AssignedTag(l, f);
    AssignedTag(l, g);
  }

  // ---- the fold ----

  lemma {:induction false} FoldField(p: Record, lines: seq<string>, f: Field)
    requires Fold(p, lines).Ok?
    ensures Get(Fold(p, lines).value, f) ==
            if LastAssigned(lines, f).Some? then LastAssigned(lines, f) else Get(p, f)
    decreases |lines|
  {
    if lines != [] {
      var init := lines[..|lines| - 1];
      assert Column(lines, f)[..|lines| - 1] == Column(init, f);
      FoldField(p, init, f);
      StepTouchesOneField(Fold(p, init).value, lines[|lines| - 1], f);
    }
  }

  lemma {:induction false} AuthorsOfSnoc(lines: seq<string>, l: string)
    ensures AuthorsOf(lines + [l]) == AuthorsOf(lines) + (if TagOf(l) == AU then [ValueOf(l)] else [])
    decreases |lines|
  {
    if lines != [] {
      var added := if TagOf(l) == AU then [ValueOf(l)] else [];
      var first := if TagOf(lines[0]) == AU then [ValueOf(lines[0])] else [];
      calc {
        AuthorsOf(lines + [l]);
        { assert (lines + [l])[0] == lines[0]; }
        first + AuthorsOf((lines + [l])[1..]);
        { assert (lines + [l])[1..] == lines[1..] + [l]; }
        first + AuthorsOf(lines[1..] + [l]);
        { AuthorsOfSnoc(lines[1..], l); }
        first + (AuthorsOf(lines[1..]) + added);
        AuthorsOf(lines) + added;
      }
    }
  }

  lemma {:induction false} FoldAuthors(p: Record, lines: seq<string>)
    requires Fold(p, lines).Ok?
    ensures Fold(p, lines).value.authors == p.authors + AuthorsOf(lines)
    decreases |lines|
  {
    if lines != [] {
      var init := lines[..|lines| - 1];
      var l := lines[|lines| - 1];
      var q := Fold(p, init).value;
      var added := if TagOf(l) == AU then [ValueOf(l)] else [];
      calc {
        Fold(p, lines).value.authors;
        Step(q, l).value.authors;
        { StepTouchesOneField(q, l, Title); }
        q.authors + added;
        { FoldAuthors(p, init); }
        p.authors + AuthorsOf(init) + added;
        { AuthorsOfSnoc(init, l); }
        p.authors + AuthorsOf(init + [l]);
        { assert init + [l] == lines; }
        p.authors + AuthorsOf(lines);
      }
    }
  }

  lemma {:induction false} FoldFails(p: Record, lines: seq<string>)
    ensures Fold(p, lines).Err? <==> exists i :: 0 <= i < |lines| && IsFatal(lines[i])
    ensures Fold(p, lines).Err? ==> exists i :: (0 <= i < |lines| && IsFatal(lines[i]) &&
              (forall j :: 0 <= j < i ==> !IsFatal(lines[j])) && Fold(p, lines).error == FatalError(lines[i]))
    decreases |lines|
  {
    if lines != [] {
      var n := |lines| - 1;
      var init := lines[..n];
      FoldFails(p, init);
      assert forall i :: 0 <= i < n ==> init[i] == lines[i];
      match Fold(p, init)
      case Err(e) =>
        var i :| 0 <= i < n && IsFatal(init[i]) && (forall j :: 0 <= j < i ==> !IsFatal(init[j])) && e == FatalError(init[i]);
        assert IsFatal(lines[i]) && e == FatalError(lines[i]);
      case Ok(q) =>
        StepFails(q, lines[n]);
        if IsFatal(lines[n]) {
          assert forall j :: 0 <= j < n ==> !IsFatal(lines[j]);
        } else {
          assert forall i :: 0 <= i < |lines| ==> !IsFatal(lines[i]);
        }
    }
  }

  /** `LastAssigned` really is the last assignment. */
  lemma LastAssignedIsLast(lines: seq<string>, f: Field)
    ensures LastAssigned(lines, f).None? <==> forall i :: 0 <= i < |lines| ==> Assigned(lines[i], f).None?
    ensures forall i :: IsLastAssignment(lines, i, f) ==> LastAssigned(lines, f) == Assigned(lines[i], f)
  {
    var c := Column(lines, f);
    LastSomeIsLast(c);
    forall i | IsLastAssignment(lines, i, f)
      ensures IsLastSome(c, i)
    {
    }
  }

  // ---- what parse_meta returns ----

  /** Line `i` is the last line tagged `t`. */
  ghost predicate IsLastTagged(lines: seq<string>, i: int, t: Tag) {
    0 <= i < |lines| && TagOf(lines[i]) == t &&
    forall j :: i < j < |lines| ==> TagOf(lines[j]) != t
  }

  /** Line `i` is the last line tagged `t` whose value is an integer. */
  ghost predicate IsLastIntTagged(lines: seq<string>, i: int, t: Tag) {
    0 <= i < |lines| && TagOf(lines[i]) == t && ParseInt(ValueOf(lines[i])).Some? &&
    forall j :: i < j < |lines| ==> !(TagOf(lines[j]) == t && ParseInt(ValueOf(lines[j])).Some?)
  }

  /** A successful parse is the fold followed by the `page_length` step. */
  lemma ParseIsFinishedFold(name: string, lines: seq<string>)
    requires ParseMetaSpec(name, lines).Ok?
    ensures Fold(Initial(name), lines).Ok?
    ensures forall f :: f != PageLength ==>
              Get(ParseMetaSpec(name, lines).value, f) == Get(Fold(Initial(name), lines).value, f)
    ensures ParseMetaSpec(name, lines).value.authors == Fold(Initial(name), lines).value.authors
    ensures ParseMetaSpec(name, lines).value.id == Fold(Initial(name), lines).value.id
  {
  }

  /**
   * The value of a field on a successful parse is what the last line
   * storing under it stored, and the field is absent when no line did.
   */
  lemma FieldIsLastAssignment(name: string, lines: seq<string>, f: Field)
    requires ParseMetaSpec(name, lines).Ok? && f != PageLength
    ensures var r := ParseMetaSpec(name, lines).value;
      && (Get(r, f).None? <==> forall i :: 0 <= i < |lines| ==> Assigned(lines[i], f).None?)
      && forall i :: IsLastAssignment(lines, i, f) ==> Get(r, f) == Assigned(lines[i], f)
  {
    ParseIsFinishedFold(name, lines);
    FoldField(Initial(name), lines, f);
    LastAssignedIsLast(lines, f);
  }

  /**
   * `title`, `journal_name`, `doi_url` and `doi` are absent unless a line
   * carries their tag, and otherwise hold the stripped value of the last
   * such line.
   */
  lemma TextFieldIsLastLine(name: string, lines: seq<string>, f: Field, t: Tag)
    requires ParseMetaSpec(name, lines).Ok?
    requires (f, t) == (Title, T1) || (f, t) == (JournalName, JF) || (f, t) == (DoiUrl, UR) || (f, t) == (Doi, M3)
    ensures var r := ParseMetaSpec(name, lines).value;
      && (Get(r, f).None? <==> forall i :: 0 <= i < |lines| ==> TagOf(lines[i]) != t)
      && forall i :: IsLastTagged(lines, i, t) ==> Get(r, f) == Some(Str(ValueOf(lines[i])))
  {
    FieldIsLastAssignment(name, lines, f);
    forall i | IsLastTagged(lines, i, t)
      ensures IsLastAssignment(lines, i, f)
    {
    }
  }

  /**
   * `start_page` and `end_page` hold the last integer value among their
   * lines; a line whose value is not an integer is skipped, and the field is
   * absent when no line had an integer value.
   */
  lemma PageBoundIsLastIntLine(name: string, lines: seq<string>, f: Field, t: Tag)
    requires ParseMetaSpec(name, lines).Ok?
    requires (f, t) == (StartPage, SP) || (f, t) == (EndPage, EP)
    ensures var r := ParseMetaSpec(name, lines).value;
      && (Get(r, f).None? <==>
            forall i :: 0 <= i < |lines| && TagOf(lines[i]) == t ==> ParseInt(ValueOf(lines[i])).None?)
      && forall i :: IsLastIntTagged(lines, i, t) ==> Get(r, f) == IntValue(ParseInt(ValueOf(lines[i])))
  {
    FieldIsLastAssignment(name, lines, f);
    forall i | IsLastIntTagged(lines, i, t)
      ensures IsLastAssignment(lines, i, f)
    {
    }
  }

  /**
   * Volume and date lines abort the parse on a bad value, and only they do;
   * the error is that of the first such line.
   */
  lemma FatalLines(name: string, lines: seq<string>)
    ensures ParseMetaSpec(name, lines).Err? <==> exists i :: 0 <= i < |lines| && IsFatal(lines[i])
    ensures ParseMetaSpec(name, lines).Err? ==>
              exists i :: (0 <= i < |lines| && IsFatal(lines[i]) &&
                (forall j :: 0 <= j < i ==> !IsFatal(lines[j])) &&
                ParseMetaSpec(name, lines).error == FatalError(lines[i]))
  {
    FoldFails(Initial(name), lines);
  }

  /** On a successful parse `volume` is absent exactly when no `VL` line occurs, and is the last one's integer otherwise. */
  lemma VolumeIsLastLine(name: string, lines: seq<string>)
    requires ParseMetaSpec(name, lines).Ok?
    ensures var r := ParseMetaSpec(name, lines).value;
      && (forall i :: 0 <= i < |lines| && TagOf(lines[i]) == VL ==> ParseInt(ValueOf(lines[i])).Some?)
      && (r.volume.None? <==> forall i :: 0 <= i < |lines| ==> TagOf(lines[i]) != VL)
      && forall i :: IsLastTagged(lines, i, VL) ==> r.volume == ParseInt(ValueOf(lines[i]))
  {
    NoFatalLine(name, lines);
    FieldIsLastAssignment(name, lines, Volume);
    forall i | IsLastTagged(lines, i, VL)
      ensures IsLastAssignment(lines, i, Volume)
    {
      assert !IsFatal(lines[i]);
    }
  }

  /** A parse that returns has no fatal line. */
  lemma NoFatalLine(name: string, lines: seq<string>)
    requires ParseMetaSpec(name, lines).Ok?
    ensures forall i :: 0 <= i < |lines| ==> !IsFatal(lines[i])
  {
    FatalLines(name, lines);
  }

  /** A date line that does not raise stores both year and month. */
  lemma DateLineAssigns(l: string)
    requires !IsFatal(l)
    ensures Assigned(l, DateYear).Some? <==> TagOf(l) == PY
    ensures Assigned(l, DateMonth).Some? <==> TagOf(l) == PY
    ensures TagOf(l) == PY ==> ParseDate(ValueOf(l)).Some?
  {
  }

  /**
   * On a successful parse `date_year` and `date_month` are both present or
   * both absent, present exactly when a `PY` line occurs, and then the year
   * and month of the last one.
   */
  lemma DateIsLastLine(name: string, lines: seq<string>)
    requires ParseMetaSpec(name, lines).Ok?
    ensures var r := ParseMetaSpec(name, lines).value;
      && (forall i :: 0 <= i < |lines| && TagOf(lines[i]) == PY ==> ParseDate(ValueOf(lines[i])).Some?)
      && (r.dateYear.Some? <==> r.dateMonth.Some?)
      && (r.dateYear.None? <==> forall i :: 0 <= i < |lines| ==> TagOf(lines[i]) != PY)
      && forall i :: IsLastTagged(lines, i, PY) ==>
           r.dateYear == Some(ParseDate(ValueOf(lines[i])).value.year) &&
           r.dateMonth == Some(ParseDate(ValueOf(lines[i])).value.month)
  {
    NoFatalLine(name, lines);
    FieldIsLastAssignment(name, lines, DateYear);
    FieldIsLastAssignment(name, lines, DateMonth);
    forall i | 0 <= i < |lines|
      ensures (Assigned(lines[i], DateYear).Some? <==> TagOf(lines[i]) == PY)
      ensures (Assigned(lines[i], DateMonth).Some? <==> TagOf(lines[i]) == PY)
      ensures TagOf(lines[i]) == PY ==> ParseDate(ValueOf(lines[i])).Some?
    {
      DateLineAssigns(lines[i]);
    }
    forall i | IsLastTagged(lines, i, PY)
      ensures IsLastAssignment(lines, i, DateYear) && IsLastAssignment(lines, i, DateMonth)
    {
    }
  }

  /** `authors` is always there and holds the value of every `AU` line, in file order. */
  lemma AuthorsInFileOrder(name: string, lines: seq<string>)
    requires ParseMetaSpec(name, lines).Ok?
    ensures ParseMetaSpec(name, lines).value.authors == AuthorsOf(lines)
  {
    ParseIsFinishedFold(name, lines);
    FoldAuthors(Initial(name), lines);
  }

  /**
   * `page_length` is present exactly when both page bounds are present and
   * nonzero, and is then their difference, negative when the end precedes
   * the start.
   */
  lemma PageLengthIffBothBounds(name: string, lines: seq<string>)
    requires ParseMetaSpec(name, lines).Ok?
    ensures var r := ParseMetaSpec(name, lines).value;
      && (r.pageLength.Some? <==> Truthy(r.startPage) && Truthy(r.endPage))
      && (r.pageLength.Some? ==> r.pageLength.value == r.endPage.value - r.startPage.value)
  {
    FoldKeepsId(Initial(name), lines);
  }

  /** A file under `metadata/` is identified by its stem. */
  lemma IdOfMetadataPath(stem: string, ext: string)
    requires '.' !in stem
    ensures DeriveId("metadata/" + stem + "." + ext) == stem
  {
    var name := "metadata/" + stem + "." + ext;
    assert name[..9] == "metadata/";
    assert name[9..] == stem + "." + ext;
    BeforeFirstSeparator(stem, '.', ext);
  }

  /** Any other file is identified by everything before its first `.`. */
  lemma IdOfOtherPath(stem: string, ext: string)
    requires '.' !in stem && !HasPrefix(stem, "metadata/")
    ensures DeriveId(stem + "." + ext) == stem
  {
    var name := stem + "." + ext;
    if |stem| >= 9 {
      assert name[..9] == stem[..9];
    } else {
      assert name[|stem|] == '.' && '.' !in MetadataDir;
    }
    assert !HasPrefix(name, MetadataDir);
    BeforeFirstSeparator(stem, '.', ext);
  }
}
