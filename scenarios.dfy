/**
 * Concrete records worked through `parse_meta`, on lines
 * laid out as the tagged format writes them (`XX  - value` and a newline).
 */
module MetaScenarios {
  import opened Wrappers
  import opened Text
  import opened PyInt
  import opened PyDate
  import opened ParseSourceData
  import MetaProperties

  /** A tagged line: two-letter tag, two blanks, a dash, a blank, the value, a newline. */
  function TaggedLine(tag: string, v: string): string {
    tag + "  - " + v + "\n"
  }

  /** The value of a tagged line is read back exactly, and its tag is its first two characters. */
  lemma TaggedLineValue(tag: string, v: string)
    requires |tag| == 2
    requires v == [] || (!IsSpace(v[0]) && !IsSpace(v[|v| - 1]))
    ensures ValueOf(TaggedLine(tag, v)) == v
    ensures TaggedLine(tag, v)[..2] == tag
  {
    var l := TaggedLine(tag, v);
    var x := v + "\n";
    assert From(l, ValueColumn) == [' '] + x;
    assert ([' '] + x)[1..] == x;
    assert TrimStart([' '] + x) == TrimStart(x);
    if v == [] {
      assert x[1..] == [];
      assert TrimStart(x) == [];
    } else {
      assert x[0] == v[0];
      assert TrimStart(x) == x;
      assert x[..|x| - 1] == v;
      assert TrimEnd(x) == TrimEnd(v) == v;
    }
  }

  lemma FoldOne(p: Record, a: string)
    ensures Fold(p, [a]) == Step(p, a)
  {
    assert [a][..0] == [];
  }

  lemma FoldTwo(p: Record, a: string, b: string)
    ensures Fold(p, [a, b]) == if Step(p, a).Err? then Step(p, a) else Step(Step(p, a).value, b)
  {
    assert [a, b][..1] == [a];
    FoldOne(p, a);
  }

  /** A tagged line takes the branch of its tag, with its value. */
  lemma TaggedStep(p: Record, tag: string, t: Tag, v: string)
    requires t != Other && tag == TagName(t)
    requires v == [] || (!IsSpace(v[0]) && !IsSpace(v[|v| - 1]))
    ensures TagOf(TaggedLine(tag, v)) == t && ValueOf(TaggedLine(tag, v)) == v
  {
    TaggedLineValue(tag, v);
    TagOfIsPrefix(TaggedLine(tag, v), t);
  }

  lemma SmallInts()
    ensures ParseInt("3") == Some(3) && ParseInt("10") == Some(10) && ParseInt("0") == Some(0)
  {
    assert "10"[..1] == "1";
  }

  /** `SP  - N/A` leaves `start_page` absent and the parse goes on. */
  lemma StartPageNotApplicable(name: string)
    ensures var r := ParseMetaSpec(name, [TaggedLine("SP", "N/A"), TaggedLine("AU", "Smith, J.")]);
      r.Ok? && r.value.startPage.None? && r.value.pageLength.None? && r.value.authors == ["Smith, J."]
  {
    var p0 := Initial(name);
    var a, b := TaggedLine("SP", "N/A"), TaggedLine("AU", "Smith, J.");
    var p1 := p0.(authors := ["Smith, J."]);
    assert Step(p0, a) == Ok(p0) by {
      TaggedStep(p0, "SP", SP, "N/A");
      NotApplicableIsNotInt();
      StepCases(p0, a);
    }
    assert Step(p0, b) == Ok(p1) by {
      TaggedStep(p0, "AU", AU, "Smith, J.");
      StepCases(p0, b);
      assert p0.authors + ["Smith, J."] == ["Smith, J."];
    }
    assert Fold(p0, [a, b]) == Ok(p1) by {
      FoldTwo(p0, a, b);
    }
    assert !Truthy(p1.startPage) && Finish(p1) == p1;
  }

  /** `PY  - 1985/03/15/` yields year 1985 and month 3. */
  lemma DateScenario(name: string)
    ensures var r := ParseMetaSpec(name, [TaggedLine("PY", "1985/03/15/")]);
      r.Ok? && r.value.dateYear == Some(1985) && r.value.dateMonth == Some(3)
  {
    var p0 := Initial(name);
    var a := TaggedLine("PY", "1985/03/15/");
    FoldOne(p0, a);
    TaggedStep(p0, "PY", PY, "1985/03/15/");
    ParseExample();
    StepCases(p0, a);
  }

  /** `PY  - not-a-date` aborts the parse. */
  lemma BadDateScenario(name: string)
    ensures ParseMetaSpec(name, [TaggedLine("PY", "not-a-date")]) == Err(InvalidDate("not-a-date"))
  {
    var p0 := Initial(name);
    var a := TaggedLine("PY", "not-a-date");
    FoldOne(p0, a);
    TaggedStep(p0, "PY", PY, "not-a-date");
    NotADate();
    StepCases(p0, a);
  }

  /** Two page lines with integer values: `page_length` follows the truthiness rule. */
  lemma PageLines(name: string, s: string, e: string, sv: int, ev: int)
    requires ParseInt(s) == Some(sv) && ParseInt(e) == Some(ev)
    requires !IsSpace(s[0]) && !IsSpace(s[|s| - 1]) && !IsSpace(e[0]) && !IsSpace(e[|e| - 1])
    ensures var r := ParseMetaSpec(name, [TaggedLine("SP", s), TaggedLine("EP", e)]);
      r.Ok? && r.value.startPage == Some(sv) && r.value.endPage == Some(ev)
  {
    var p0 := Initial(name);
    var a, b := TaggedLine("SP", s), TaggedLine("EP", e);
    var p1 := p0.(startPage := Some(sv));
    assert Step(p0, a) == Ok(p1) by {
      TaggedStep(p0, "SP", SP, s);
      StepCases(p0, a);
    }
    assert Step(p1, b) == Ok(p1.(endPage := Some(ev))) by {
      TaggedStep(p1, "EP", EP, e);
      StepCases(p1, b);
    }
    FoldTwo(p0, a, b);
  }

  /** An end page before the start page gives a negative `page_length`. */
  lemma NegativePageLength(name: string)
    ensures var r := ParseMetaSpec(name, [TaggedLine("SP", "10"), TaggedLine("EP", "3")]);
      r.Ok? && r.value.pageLength == Some(-7)
  {
    SmallInts();
    PageLines(name, "10", "3", 10, 3);
    MetaProperties.PageLengthIffBothBounds(name, [TaggedLine("SP", "10"), TaggedLine("EP", "3")]);
  }

  /** A start page of 0 is falsy, so no `page_length` is derived. */
  lemma ZeroStartPage(name: string)
    ensures var r := ParseMetaSpec(name, [TaggedLine("SP", "0"), TaggedLine("EP", "3")]);
      r.Ok? && r.value.startPage == Some(0) && r.value.pageLength.None?
  {
    SmallInts();
    PageLines(name, "0", "3", 0, 3);
    MetaProperties.PageLengthIffBothBounds(name, [TaggedLine("SP", "0"), TaggedLine("EP", "3")]);
  }
}
