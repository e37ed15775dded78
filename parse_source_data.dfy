/**
 * The bibliographic metadata extractor `parse_meta` and the driver loop of
 * `main` that maps it over the input files.
 *
 * A record is built from a file name and the file's lines. Each line is
 * classified by its first two characters; its value is the text from
 * column 5 on, stripped. `Step` is what one line does to the record being
 * built, `Fold` applies it to the lines in order, and `ParseMeta` is the
 * loop itself, proved equal to the fold.
 */
module ParseSourceData {
  import opened Wrappers
  import opened Text
  import opened PyInt
  import opened PyDate

  /** The dictionary `parse_meta` returns; `None` is a key that was never set. */
  datatype Record = Record(
    id: string,
    title: Option<string>,
    journalName: Option<string>,
    volume: Option<int>,
    startPage: Option<int>,
    endPage: Option<int>,
    dateYear: Option<int>,
    dateMonth: Option<int>,
    doiUrl: Option<string>,
    doi: Option<string>,
    authors: seq<string>,
    pageLength: Option<int>)

  /** The optional keys of the returned dictionary (`title`, `journal_name`, ..., `page_length`). */
  datatype Field = Title | JournalName | Volume | StartPage | EndPage | DateYear | DateMonth | DoiUrl | Doi | PageLength

  /** A scalar value stored under one of those keys. */
  datatype Value = Str(s: string) | Int(n: int)

  function StrValue(o: Option<string>): Option<Value> {
    if o.Some? then Some(Str(o.value)) else None
  }

  function IntValue(o: Option<int>): Option<Value> {
    if o.Some? then Some(Int(o.value)) else None
  }

  /** `p.get(key)` for the key of `f`. */
  function Get(p: Record, f: Field): Option<Value> {
    match f
    case Title => StrValue(p.title)
    case JournalName => StrValue(p.journalName)
    case Volume => IntValue(p.volume)
    case StartPage => IntValue(p.startPage)
    case EndPage => IntValue(p.endPage)
    case DateYear => IntValue(p.dateYear)
    case DateMonth => IntValue(p.dateMonth)
    case DoiUrl => StrValue(p.doiUrl)
    case Doi => StrValue(p.doi)
    case PageLength => IntValue(p.pageLength)
  }

  /** The two exceptions that escape `parse_meta`, with the offending text. */
  datatype Error =
    | InvalidVolume(text: string)  // `int()` on a VL value
    | InvalidDate(text: string)    // `strptime` on a PY value

  /** The tags of the `if`/`elif` chain, and everything else. */
  datatype Tag = T1 | JF | VL | SP | EP | PY | UR | M3 | AU | Other

  /** Column at which a tagged line's value starts. */
  const ValueColumn: nat := 5

  /** The directory prefix stripped from file names. */
  const MetadataDir: string := "metadata/"

  /** The branch of the chain a line takes, trying the tags in source order. */
  function TagOf(l: string): Tag {
    if HasPrefix(l, "T1") then T1
    else if HasPrefix(l, "JF") then JF
    else if HasPrefix(l, "VL") then VL
    else if HasPrefix(l, "SP") then SP
    else if HasPrefix(l, "EP") then EP
    else if HasPrefix(l, "PY") then PY
    else if HasPrefix(l, "UR") then UR
    else if HasPrefix(l, "M3") then M3
    else if HasPrefix(l, "AU") then AU
    else Other
  }

  /** The tag is exactly the first two characters of the line. */
  lemma TagOfIsPrefix(l: string, t: Tag)
    requires t != Other
    ensures TagOf(l) == t <==> |l| >= 2 && l[..2] == TagName(t)
  {
  }

  function TagName(t: Tag): (s: string)
    requires t != Other
    ensures |s| == 2
  {
    match t
    case T1 => "T1" case JF => "JF" case VL => "VL" case SP => "SP" case EP => "EP"
    case PY => "PY" case UR => "UR" case M3 => "M3" case AU => "AU"
  }

  /** `l[5:].strip()` */
  function ValueOf(l: string): string {
    Strip(From(l, ValueColumn))
  }

  /** `_id`: the file name without the `metadata/` directory and without everything from the first `.` on. */
  function DeriveId(name: string): (id: string)
    ensures var base := if HasPrefix(name, MetadataDir) then name[|MetadataDir|..] else name;
            '.' !in id && HasPrefix(base, id) && (|id| == |base| || base[|id|] == '.')
  {
    if HasPrefix(name, MetadataDir) then BeforeFirst(name[|MetadataDir|..], '.')
    else BeforeFirst(name, '.')
  }

  /** The record before any line is read: only `_id` and an empty `authors`. */
  function Initial(name: string): (p: Record)
    ensures p.id == DeriveId(name) && p.authors == []
    ensures forall f :: Get(p, f).None?
  {
    Record(DeriveId(name), None, None, None, None, None, None, None, None, None, [], None)
  }

  /** Python truthiness of an optional integer as `p.get(key)` yields it. */
  predicate Truthy(x: Option<int>) {
    x.Some? && x.value != 0
  }

  /** One iteration of the loop body. */
  function Step(p: Record, l: string): Result<Record, Error> {
    var v := ValueOf(l);
    match TagOf(l)
    case T1 => Ok(p.(title := Some(v)))
    case JF => Ok(p.(journalName := Some(v)))
    case VL =>
      (match ParseInt(v)
       case None => Err(InvalidVolume(v))
       case Some(n) => Ok(p.(volume := Some(n))))
    case SP =>
      (match ParseInt(v)
       case None => Ok(p)
       case Some(n) => Ok(p.(startPage := Some(n))))
    case EP =>
      (match ParseInt(v)
       case None => Ok(p)
       case Some(n) => Ok(p.(endPage := Some(n))))
    case PY =>
      (match ParseDate(v)
       case None => Err(InvalidDate(v))
       case Some(d) => Ok(p.(dateYear := Some(d.year), dateMonth := Some(d.month))))
    case UR => Ok(p.(doiUrl := Some(v)))
    case M3 => Ok(p.(doi := Some(v)))
    case AU => Ok(p.(authors := p.authors + [v]))
    case Other => Ok(p)
  }

  /** The loop over `lines`, stopping at the first exception. */
  function Fold(p: Record, lines: seq<string>): Result<Record, Error>
    decreases |lines|
  {
    if lines == [] then Ok(p)
    else
      match Fold(p, lines[..|lines| - 1])
      case Err(e) => Err(e)
      case Ok(q) => Step(q, lines[|lines| - 1])
  }

  /** The step after the loop: `page_length` when both page bounds are truthy. */
  function Finish(p: Record): (r: Record)
    ensures Truthy(p.startPage) && Truthy(p.endPage) ==> r.pageLength == Some(p.endPage.value - p.startPage.value)
    ensures !(Truthy(p.startPage) && Truthy(p.endPage)) ==> r == p
    ensures r.(pageLength := p.pageLength) == p
  {
    if Truthy(p.startPage) && Truthy(p.endPage) then p.(pageLength := Some(p.endPage.value - p.startPage.value))
    else p
  }

  /** What `parse_meta(name, lines)` returns or raises. */
  function ParseMetaSpec(name: string, lines: seq<string>): Result<Record, Error> {
    match Fold(Initial(name), lines)
    case Err(e) => Err(e)
    case Ok(p) => Ok(Finish(p))
  }

  /** The fold over one more line is one more step, unless it has already raised. */
  lemma FoldSnoc(p: Record, lines: seq<string>, i: nat)
    requires i < |lines|
    ensures Fold(p, lines[..i + 1]) ==
            if Fold(p, lines[..i]).Err? then Fold(p, lines[..i]) else Step(Fold(p, lines[..i]).value, lines[i])
  {
    assert lines[..i + 1][..i] == lines[..i];
  }

  /** Once the loop has raised, later lines change nothing. */
  lemma {:induction false} FoldErrStays(p: Record, lines: seq<string>, k: nat)
    requires k <= |lines| && Fold(p, lines[..k]).Err?
    ensures Fold(p, lines) == Fold(p, lines[..k])
  {
    if k < |lines| {
      var init := lines[..|lines| - 1];
      assert init[..k] == lines[..k];
      FoldErrStays(p, init, k);
    } else {
      assert lines[..k] == lines;
    }
  }

  /** What `Step` does, branch by branch. */
  lemma StepCases(p: Record, l: string)
    ensures var v := ValueOf(l);
      && (TagOf(l) == T1 ==> Step(p, l) == Ok(p.(title := Some(v))))
      && (TagOf(l) == JF ==> Step(p, l) == Ok(p.(journalName := Some(v))))
      && (TagOf(l) == VL ==> Step(p, l) == if ParseInt(v).None? then Err(InvalidVolume(v)) else Ok(p.(volume := ParseInt(v))))
      && (TagOf(l) == SP ==> Step(p, l) == if ParseInt(v).None? then Ok(p) else Ok(p.(startPage := ParseInt(v))))
      && (TagOf(l) == EP ==> Step(p, l) == if ParseInt(v).None? then Ok(p) else Ok(p.(endPage := ParseInt(v))))
      && (TagOf(l) == PY ==> Step(p, l) == if ParseDate(v).None? then Err(InvalidDate(v))
                                           else Ok(p.(dateYear := Some(ParseDate(v).value.year), dateMonth := Some(ParseDate(v).value.month))))
      && (TagOf(l) == UR ==> Step(p, l) == Ok(p.(doiUrl := Some(v))))
      && (TagOf(l) == M3 ==> Step(p, l) == Ok(p.(doi := Some(v))))
      && (TagOf(l) == AU ==> Step(p, l) == Ok(p.(authors := p.authors + [v])))
      && (TagOf(l) == Other ==> Step(p, l) == Ok(p))
  {
  }

  /** The `if`/`elif` chain of the loop body, applied to one line. */
  method ApplyLine(p: Record, l: string) returns (r: Result<Record, Error>)
    ensures r == Step(p, l)
  {
    var v := ValueOf(l);
    StepCases(p, l);
    r := Ok(p);
    if HasPrefix(l, "T1") {
      assert TagOf(l) == T1;
      r := Ok(p.(title := Some(v)));
    } else if HasPrefix(l, "JF") {
      assert TagOf(l) == JF;
      r := Ok(p.(journalName := Some(v)));
    } else if HasPrefix(l, "VL") {
      assert TagOf(l) == VL;
      var n := ParseInt(v);
      if n.None? {
        return Err(InvalidVolume(v));
      }
      r := Ok(p.(volume := n));
    } else if HasPrefix(l, "SP") {
      assert TagOf(l) == SP;
      var n := ParseInt(v);
      if n.Some? {
        r := Ok(p.(startPage := n));
      }
    } else if HasPrefix(l, "EP") {
      assert TagOf(l) == EP;
      var n := ParseInt(v);
      if n.Some? {
        r := Ok(p.(endPage := n));
      }
    } else if HasPrefix(l, "PY") {
      assert TagOf(l) == PY;
      var d := ParseDate(v);
      if d.None? {
        return Err(InvalidDate(v));
      }
      r := Ok(p.(dateYear := Some(d.value.year), dateMonth := Some(d.value.month)));
    } else if HasPrefix(l, "UR") {
      assert TagOf(l) == UR;
      r := Ok(p.(doiUrl := Some(v)));
    } else if HasPrefix(l, "M3") {
      assert TagOf(l) == M3;
      r := Ok(p.(doi := Some(v)));
    } else if HasPrefix(l, "AU") {
      assert TagOf(l) == AU;
      r := Ok(p.(authors := p.authors + [v]));
    } else {
      assert TagOf(l) == Other;
    }
  }

  /** `parse_meta`: the loop of the source, proved to compute `ParseMetaSpec`. */
  method ParseMeta(name: string, lines: seq<string>) returns (res: Result<Record, Error>)
    ensures res == ParseMetaSpec(name, lines)
  {
    var p := Initial(name);
    for i := 0 to |lines|
      invariant Fold(Initial(name), lines[..i]) == Ok(p)
    {
      FoldSnoc(Initial(name), lines, i);
      var next := ApplyLine(p, lines[i]);
      if next.Err? {
        FoldErrStays(Initial(name), lines, i + 1);
        return Err(next.error);
      }
      p := next.value;
    }
    assert lines[..|lines|] == lines;
    if Truthy(p.startPage) && Truthy(p.endPage) {
      p := p.(pageLength := Some(p.endPage.value - p.startPage.value));
    }
    res := Ok(p);
  }

  /** One input file: its name and its lines as `readlines()` gives them. */
  datatype SourceFile = SourceFile(name: string, lines: seq<string>)

  /**
   * The loop of `main`: parse every file in argument order; the first
   * exception ends the run, so no list is produced.
   */
  method ParseFiles(files: seq<SourceFile>) returns (res: Result<seq<Record>, Error>)
    ensures res.Ok? <==> forall k :: 0 <= k < |files| ==> ParseMetaSpec(files[k].name, files[k].lines).Ok?
    ensures res.Ok? ==> |res.value| == |files|
    ensures res.Ok? ==> forall k :: 0 <= k < |files| ==>
              Ok(res.value[k]) == ParseMetaSpec(files[k].name, files[k].lines) && res.value[k].id == DeriveId(files[k].name)
    ensures res.Err? ==> exists k :: (0 <= k < |files| && ParseMetaSpec(files[k].name, files[k].lines) == Err(res.error)
              && forall j :: 0 <= j < k ==> ParseMetaSpec(files[j].name, files[j].lines).Ok?)
  {
    var papers: seq<Record> := [];
    for i := 0 to |files|
      invariant |papers| == i
      invariant forall k :: 0 <= k < i ==> Ok(papers[k]) == ParseMetaSpec(files[k].name, files[k].lines)
    {
      var paper := ParseMeta(files[i].name, files[i].lines);
      if paper.Err? {
        return Err(paper.error);
      }
      papers := papers + [paper.value];
    }
    res := Ok(papers);
    forall k | 0 <= k < |files|
      ensures res.value[k].id == DeriveId(files[k].name)
    {
      IdSurvives(files[k].name, files[k].lines);
    }
  }

  /** `_id` is set once, before the loop, and never touched again. */
  lemma {:induction false} FoldKeepsId(p: Record, lines: seq<string>)
    requires Fold(p, lines).Ok?
    ensures Fold(p, lines).value.id == p.id
    ensures Fold(p, lines).value.pageLength == p.pageLength
    decreases |lines|
  {
    if lines != [] {
      FoldKeepsId(p, lines[..|lines| - 1]);
      StepKeepsId(Fold(p, lines[..|lines| - 1]).value, lines[|lines| - 1]);
    }
  }

  lemma StepKeepsId(p: Record, l: string)
    requires Step(p, l).Ok?
    ensures Step(p, l).value.id == p.id && Step(p, l).value.pageLength == p.pageLength
  {
    StepCases(p, l);
  }

  lemma IdSurvives(name: string, lines: seq<string>)
    requires ParseMetaSpec(name, lines).Ok?
    ensures ParseMetaSpec(name, lines).value.id == DeriveId(name)
  {
    FoldKeepsId(Initial(name), lines);
  }
}
