/** `tag.py`: the tag objects, a line's tags, the CSV row of a tag, and the
    document-wide merge that joins a tag continued over several lines. */
module Tags {
  import opened Wrappers
  import opened PyStr
  import opened PyDict
  import opened TagParse

  /** A PAGE-XML `TextLine`: its `id` and `custom` attributes, the text of its
      `Unicode` element and the `points` of its `Coords` and `Baseline`
      elements, `None` where the element (or its text) is missing. */
  datatype Line = Line(id: string, custom: string, text: Option<string>, coords: Option<string>, baseline: Option<string>)
  {
    /** `Line.get_tags`: a new tag for each piece of the `custom` attribute
        between two `;}`, stripped and closed with `}`; none when `;}` occurs
        at most once. */
    function GetTags(): (r: seq<TagValue>)
      ensures var pieces := Split(custom, Delimiter);
        && |r| == (if |pieces| <= 2 then 0 else |pieces| - 2)
        && forall i :: 0 <= i < |r| ==> r[i] == NewTag(Strip(pieces[i + 1]) + ['}'])
      ensures r == [] <==> forall i, j :: OccursAt(custom, Delimiter, i) && OccursAt(custom, Delimiter, j) ==> i == j
    {
      FragmentsNeedTwoDelimiters(custom);
      var raws := Fragments(custom);
      seq(|raws|, i requires 0 <= i < |raws| => NewTag(raws[i]))
    }

    /** `Line.get_reading_order`: the value of the first run of digits before
        the first `;}`, an error when there is none. */
    function GetReadingOrder(): (r: Result<nat, Error>)
      ensures r.Failure? <==> forall k :: 0 <= k < |Head(custom)| ==> !IsDigit(Head(custom)[k])
      ensures r.Failure? ==> r.error == NoReadingOrder
      ensures r.Success? ==> exists i, ds :: LeftmostDigitRun(Head(custom), i, ds) && r.value == DecimalValue(ds)
    {
      ReadingOrderOfHead(custom);
      ReadingOrder(custom)
    }
  }

  /** A `TextRegion`: its `id` and its lines in document order. */
  datatype Region = Region(id: string, lines: seq<Line>)

  /** The fields of a `Tag` at one moment. */
  datatype TagValue = TagValue(
    raw: string,
    tagName: string,
    taggedString: Option<string>,
    continuedTaggedString: Option<string>,
    textRegionId: Option<string>,
    textLineId: Option<string>,
    textLineText: Option<string>,
    textLineCoordsPoints: Option<string>,
    textLineBaselinePoints: Option<string>)

  /** The fields of `Tag(raw)`: its name is the text of `raw` before the first
      space, and nothing else is set. */
  function NewTag(raw: string): TagValue {
    TagValue(raw, TagName(raw), None, None, None, None, None, None, None)
  }

  /** `tag.py`'s `Tag` dataclass. */
  class Tag {
    const raw: string
    const tagName: string
    var taggedString: Option<string>
    var continuedTaggedString: Option<string>
    var textRegionId: Option<string>
    var textLineId: Option<string>
    var textLineText: Option<string>
    var textLineCoordsPoints: Option<string>
    var textLineBaselinePoints: Option<string>

    /** `Tag(raw, tag_name)` with `__post_init__`: a tag name not given is the
        text of `raw` before its first space. */
    constructor (raw: string, tagName: Option<string>)
      ensures View() == if tagName.Some? then NewTag(raw).(tagName := tagName.value) else NewTag(raw)
    {
      this.raw := raw;
      this.tagName := if tagName.Some? then tagName.value else TagName(raw);
      taggedString, continuedTaggedString := None, None;
      textRegionId, textLineId, textLineText := None, None, None;
      textLineCoordsPoints, textLineBaselinePoints := None, None;
    }

    function View(): TagValue
      reads this
    {
      TagValue(raw, tagName, taggedString, continuedTaggedString, textRegionId, textLineId,
               textLineText, textLineCoordsPoints, textLineBaselinePoints)
    }

    /** `Tag.get_parameters` */
    function GetParameters(): (r: Result<Dict<string>, Error>)
      ensures r.Failure? ==> r.error.EmptySeparator? || IsIndexError(r.error)
      ensures r.Success? ==> IsDict(r.value)
    {
      Parameters(raw, tagName)
    }

    /** `Tag.get_tagged_string(text)` */
    function GetTaggedString(text: Option<string>): (r: Result<string, Error>)
      ensures r.Success? ==> text.Some? && |r.value| <= |text.value|
    {
      TaggedString(raw, tagName, text)
    }

    /** `Tag.set_continued_tagged_string` */
    method SetContinuedTaggedString(s: string)
      modifies this`continuedTaggedString
      ensures View() == old(View()).(continuedTaggedString := Some(s))
    {
      continuedTaggedString := Some(s);
    }

    /** `Tag.get_csv_row(header)`: the attributes named by the first eight
        columns, then the tag's own value for each parameter column, `None`
        where the tag lacks that parameter. An unknown attribute name raises,
        and so do parameters that do not parse, once there is a parameter
        column to fill. */
    method GetCsvRow(header: seq<string>) returns (row: Result<seq<Option<string>>, Error>)
      ensures row.Success? <==>
        && (forall i :: 0 <= i < Min(8, |header|) ==> Attribute(View(), header[i]).Success?)
        && (|header| > 8 ==> GetParameters().Success?)
      ensures row.Success? ==>
        && |row.value| == |header|
        && (forall i :: 0 <= i < Min(8, |header|) ==> row.value[i] == Attribute(View(), header[i]).value)
        && (forall i :: 8 <= i < |header| ==> row.value[i] == Get(GetParameters().value, header[i]))
      ensures row.Failure? ==>
        if forall i :: 0 <= i < Min(8, |header|) ==> Attribute(View(), header[i]).Success?
        then row.error == GetParameters().error
        else exists i :: && 0 <= i < Min(8, |header|)
                         && row.error == UnknownAttribute(header[i])
                         && forall k :: 0 <= k < i ==> Attribute(View(), header[k]).Success?
    {
      // `get_parameters()` is evaluated for every parameter column, and only
      // when there is one; it gives the same dict (or raises the same error)
      // each time.
      row := CsvRow(View(), GetParameters(), header);
    }
  }

  /** `Tag.get_csv_row(header)` for a tag whose fields are `v` and whose
      `get_parameters()` gives `params`. */
  method CsvRow(v: TagValue, params: Result<Dict<string>, Error>, header: seq<string>)
    returns (row: Result<seq<Option<string>>, Error>)
    ensures row.Success? <==>
      && (forall i :: 0 <= i < Min(8, |header|) ==> Attribute(v, header[i]).Success?)
      && (|header| > 8 ==> params.Success?)
    ensures row.Success? ==>
      && |row.value| == |header|
      && (forall i :: 0 <= i < Min(8, |header|) ==> row.value[i] == Attribute(v, header[i]).value)
      && (forall i :: 8 <= i < |header| ==> row.value[i] == Get(params.value, header[i]))
    ensures row.Failure? ==>
      if forall i :: 0 <= i < Min(8, |header|) ==> Attribute(v, header[i]).Success?
      then row.error == params.error
      else exists i :: && 0 <= i < Min(8, |header|)
                       && row.error == UnknownAttribute(header[i])
                       && forall k :: 0 <= k < i ==> Attribute(v, header[k]).Success?
  {
    var fixed := Min(8, |header|);
    var attributes := AttributeFields(v, header[..fixed]);
    if attributes.Failure? {
      var e := attributes.error;
      assert exists i :: && 0 <= i < fixed
                         && e == UnknownAttribute(header[i])
                         && forall k :: 0 <= k < i ==> Attribute(v, header[k]).Success?
      by {
        var i :| && 0 <= i < fixed
                 && e == UnknownAttribute(header[..fixed][i])
                 && forall k :: 0 <= k < i ==> Attribute(v, header[..fixed][k]).Success?;
        assert forall k :: 0 <= k < fixed ==> header[..fixed][k] == header[k];
      }
      return Failure(e);
    }
    if |header| == fixed {
      return Success(attributes.value);
    }
    if params.Failure? {
      return Failure(params.error);
    }
    var values := ParameterFields(params.value, header[fixed..]);
    row := Success(attributes.value + values);
    forall i | fixed <= i < |header|
      ensures row.value[i] == Get(params.value, header[i])
    {
      assert row.value[i] == values[i - fixed];
      assert header[fixed..][i - fixed] == header[i];
    }
  }

  /** The first loop of `Tag.get_csv_row`: the attribute of each column. */
  method AttributeFields(v: TagValue, columns: seq<string>) returns (r: Result<seq<Option<string>>, Error>)
    ensures r.Success? <==> forall i :: 0 <= i < |columns| ==> Attribute(v, columns[i]).Success?
    ensures r.Success? ==>
      |r.value| == |columns| && forall i :: 0 <= i < |columns| ==> r.value[i] == Attribute(v, columns[i]).value
    ensures r.Failure? ==> r.error.UnknownAttribute? && r.error.name in columns && r.error.name !in DataAttributes
    ensures r.Failure? ==> exists i :: && 0 <= i < |columns|
                                      && r.error == UnknownAttribute(columns[i])
                                      && forall k :: 0 <= k < i ==> Attribute(v, columns[k]).Success?
  {
    var fields: seq<Option<string>> := [];
    for i := 0 to |columns|
      invariant |fields| == i
      invariant forall k :: 0 <= k < i ==> Attribute(v, columns[k]).Success?
      invariant forall k :: 0 <= k < i ==> fields[k] == Attribute(v, columns[k]).value
    {
      var value := Attribute(v, columns[i]);
      if value.Failure? {
        return Failure(value.error);
      }
      fields := fields + [value.value];
    }
    return Success(fields);
  }

  /** The second loop of `Tag.get_csv_row`: the tag's value of each parameter
      column, `None` for a parameter it lacks (the `KeyError` caught). */
  method ParameterFields(params: Dict<string>, columns: seq<string>) returns (fields: seq<Option<string>>)
    ensures |fields| == |columns|
    ensures forall i :: 0 <= i < |columns| ==> fields[i] == Get(params, columns[i])
  {
    fields := [];
    for i := 0 to |columns|
      invariant |fields| == i
      invariant forall k :: 0 <= k < i ==> fields[k] == Get(params, columns[k])
    {
      fields := fields + [Get(params, columns[i])];
    }
  }

  /** The data attributes of a tag. */
  const DataAttributes: seq<string> := [
    "raw", "tag_name", "tagged_string", "continued_tagged_string", "text_region_id",
    "text_line_id", "text_line_text", "text_line_coords_points", "text_line_baseline_points"]

  /** `tag.__getattribute__(name)` for the data attributes of a tag. */
  function Attribute(v: TagValue, name: string): (r: Result<Option<string>, Error>)
    ensures r.Success? <==> name in DataAttributes
    ensures r.Failure? ==> r.error == UnknownAttribute(name)
  {
    if name == "raw" then Success(Some(v.raw))
    else if name == "tag_name" then Success(Some(v.tagName))
    else if name == "tagged_string" then Success(v.taggedString)
    else if name == "continued_tagged_string" then Success(v.continuedTaggedString)
    else if name == "text_region_id" then Success(v.textRegionId)
    else if name == "text_line_id" then Success(v.textLineId)
    else if name == "text_line_text" then Success(v.textLineText)
    else if name == "text_line_coords_points" then Success(v.textLineCoordsPoints)
    else if name == "text_line_baseline_points" then Success(v.textLineBaselinePoints)
    else Failure(UnknownAttribute(name))
  }

  // ---------------------------------------------------------------------------
  // Document.get_tags: the specification

  /** A tag fragment together with the region and the line it was found in. */
  datatype Located = Located(raw: string, regionId: string, line: Line)

  /** The fragments of one line, in order. */
  function LineFragments(regionId: string, line: Line): (r: seq<Located>)
    ensures |r| == |Fragments(line.custom)|
    ensures forall i :: 0 <= i < |r| ==> r[i] == Located(Fragments(line.custom)[i], regionId, line)
  {
    var raws := Fragments(line.custom);
    seq(|raws|, i requires 0 <= i < |raws| => Located(raws[i], regionId, line))
  }

  /** The lines of a region, each with the region's id. */
  function InRegion(regionId: string, lines: seq<Line>): (r: seq<(string, Line)>)
    ensures |r| == |lines| && forall j :: 0 <= j < |r| ==> r[j] == (regionId, lines[j])
  {
    seq(|lines|, j requires 0 <= j < |lines| => (regionId, lines[j]))
  }

  /** The lines of a document, region by region, each with its region's id. */
  function DocumentLines(regions: seq<Region>): seq<(string, Line)> {
    if regions == [] then []
    else
      var last := regions[|regions| - 1];
      DocumentLines(regions[..|regions| - 1]) + InRegion(last.id, last.lines)
  }

  /** The fragments of each of a sequence of lines, each placed in its region. */
  function PerLine(placed: seq<(string, Line)>): (r: seq<seq<Located>>)
    ensures |r| == |placed|
  {
    seq(|placed|, i requires 0 <= i < |placed| => LineFragments(placed[i].0, placed[i].1))
  }

  /** The parts, one after the other. */
  function Flatten<T>(parts: seq<seq<T>>): seq<T> {
    if parts == [] then [] else Flatten(parts[..|parts| - 1]) + parts[|parts| - 1]
  }

  lemma {:induction false} FlattenConcat<T>(a: seq<seq<T>>, b: seq<seq<T>>)
    ensures Flatten(a + b) == Flatten(a) + Flatten(b)
  {
    if b == [] {
      assert a + b == a;
    } else {
      assert (a + b)[..|a + b| - 1] == a + b[..|b| - 1];
      FlattenConcat(a, b[..|b| - 1]);
    }
  }

  /** The fragments of a sequence of lines, each placed in its region. */
  function PlacedFragments(placed: seq<(string, Line)>): seq<Located> {
    Flatten(PerLine(placed))
  }

  /** The fragments of a region's lines, in document order. */
  function LinesFragments(regionId: string, lines: seq<Line>): seq<Located> {
    PlacedFragments(InRegion(regionId, lines))
  }

  /** The fragments of a document, region by region, line by line. */
  function RegionsFragments(regions: seq<Region>): seq<Located> {
    PlacedFragments(DocumentLines(regions))
  }

  /** The errors `except IndexError` catches. */
  predicate IsIndexError(e: Error) {
    e.MissingBody? || e.MissingColon?
  }

  /** The new tag a fragment becomes: its name and tagged string, and the ids, text and
      points of its region and line; it is not continued. */
  function Provenance(f: Located, name: string, s: string): TagValue {
    TagValue(f.raw, name, Some(s), None, Some(f.regionId), Some(f.line.id),
             f.line.text, f.line.coords, f.line.baseline)
  }

  /** The tagged string of a fragment on its own line. */
  function Tagged(f: Located): Result<string, Error> {
    TaggedString(f.raw, TagName(f.raw), f.line.text)
  }

  /** Appending the fragment as a new tag, which needs its tagged string. */
  function Appended(acc: seq<TagValue>, f: Located): Result<seq<TagValue>, Error> {
    AppendedWith(acc, f, Tagged(f))
  }

  /** `Appended` once the tagged string is known. */
  function AppendedWith(acc: seq<TagValue>, f: Located, s: Result<string, Error>): Result<seq<TagValue>, Error> {
    match s
    case Failure(e) => Failure(e)
    case Success(s) => Success(acc + [Provenance(f, TagName(f.raw), s)])
  }

  /** The `try` block of the loop of `Document.get_tags`: `Some` of its
      outcome when it absorbs the fragment into the last tag or raises an error
      other than `IndexError`; `None` when it falls through to the append,
      because the last tag has no `continued` parameter or another tag name,
      or because an `IndexError` was caught (an empty list, parameters that do
      not parse). */
  function TryAbsorb(acc: seq<TagValue>, f: Located): Option<Result<seq<TagValue>, Error>> {
    if acc == [] then None
    else
      var prev := acc[|acc| - 1];
      AbsorbWith(acc, f, Parameters(prev.raw, prev.tagName), TaggedString(prev.raw, prev.tagName, prev.textLineText),
                 Tagged(f))
  }

  /** `except IndexError: pass` falls through to the append; any other error
      propagates. */
  function Caught<T>(e: Error): Option<Result<T, Error>> {
    if IsIndexError(e) then None else Some(Failure(e))
  }

  /** The `try` block once the last tag's parameters `params`, its tagged
      string `a` and the fragment's tagged string `b` are known; each is only
      looked at once the block gets that far. */
  function AbsorbWith(acc: seq<TagValue>, f: Located, params: Result<Dict<string>, Error>,
                      a: Result<string, Error>, b: Result<string, Error>): Option<Result<seq<TagValue>, Error>>
    requires acc != []
  {
    var prev := acc[|acc| - 1];
    match params
    case Failure(e) => Caught(e)
    case Success(params) =>
      if "continued" in Keys(params) && TagName(f.raw) == prev.tagName then
        match a
        case Failure(e) => Caught(e)
        case Success(a) =>
          match b
          case Failure(e) => Caught(e)
          case Success(b) => Some(Success(acc[..|acc| - 1] + [prev.(continuedTaggedString := Some(a + " " + b))]))
      else None
  }

  /** One turn of the loop of `Document.get_tags`. */
  function MergeStep(acc: seq<TagValue>, f: Located): (r: Result<seq<TagValue>, Error>)
    ensures r.Success? ==> r.value != [] && |acc| <= |r.value| <= |acc| + 1
    ensures r.Success? && |r.value| == |acc| + 1 ==> r.value[..|acc|] == acc
    ensures r.Success? && |r.value| == |acc| ==>
      && r.value[..|acc| - 1] == acc[..|acc| - 1]
      && r.value[|acc| - 1] == acc[|acc| - 1].(continuedTaggedString := r.value[|acc| - 1].continuedTaggedString)
  {
    match TryAbsorb(acc, f)
    case Some(r) => r
    case None => Appended(acc, f)
  }

  /** The loop of `Document.get_tags` over the fragments `fs`, starting from
      the outcome `acc` of the fragments before them: an error, once raised,
      ends the loop. */
  function MergeFrom(acc: Result<seq<TagValue>, Error>, fs: seq<Located>): Result<seq<TagValue>, Error>
    decreases |fs|, 1
  {
    if fs == [] then acc else Proceed(acc, fs)
  }

  /** The turn for the last fragment of `fs`, after the turns for the others. */
  function Proceed(acc: Result<seq<TagValue>, Error>, fs: seq<Located>): Result<seq<TagValue>, Error>
    requires fs != []
    decreases |fs|, 0
  {
    Then(MergeFrom(acc, fs[..|fs| - 1]), fs[|fs| - 1])
  }

  /** One more turn, unless an error was raised. */
  function Then(acc: Result<seq<TagValue>, Error>, f: Located): Result<seq<TagValue>, Error> {
    match acc
    case Failure(e) => Failure(e)
    case Success(tags) => MergeStep(tags, f)
  }

  /** The tags `Document.get_tags` returns for the fragments `fs` of a
      document, or the error it raises. */
  function Merge(fs: seq<Located>): (r: Result<seq<TagValue>, Error>)
    ensures r.Success? ==> |r.value| <= |fs| && (fs != [] ==> r.value != [])
  {
    MergeFromBounds(Success([]), fs);
    MergeFrom(Success([]), fs)
  }

  /** The loop keeps the tags it starts from, adds at most one tag per
      fragment, and ends with at least one tag once it has seen a fragment. */
  lemma {:induction false} MergeFromBounds(acc: Result<seq<TagValue>, Error>, fs: seq<Located>)
    ensures MergeFrom(acc, fs).Success? ==>
      && acc.Success?
      && |acc.value| <= |MergeFrom(acc, fs).value| <= |acc.value| + |fs|
      && (fs != [] ==> MergeFrom(acc, fs).value != [])
  {
    if fs != [] {
      var before := MergeFrom(acc, fs[..|fs| - 1]);
      MergeFromBounds(acc, fs[..|fs| - 1]);
      assert MergeFrom(acc, fs) == Then(before, fs[|fs| - 1]);
      if MergeFrom(acc, fs).Success? {
        assert before.Success?;
      }
    }
  }

  lemma MergeFromSnoc(acc: Result<seq<TagValue>, Error>, fs: seq<Located>, f: Located)
    ensures MergeFrom(acc, fs + [f]) == Then(MergeFrom(acc, fs), f)
  {
    assert (fs + [f])[..|fs|] == fs;
  }

  /** Running the loop over `a + b` is running it over `a`, then over `b`. */
  lemma {:induction false} MergeFromConcat(acc: Result<seq<TagValue>, Error>, a: seq<Located>, b: seq<Located>)
    ensures MergeFrom(acc, a + b) == MergeFrom(MergeFrom(acc, a), b)
  {
    if b == [] {
      assert a + b == a;
    } else {
      var b', f := b[..|b| - 1], b[|b| - 1];
      assert a + b == (a + b') + [f] && b == b' + [f];
      MergeFromConcat(acc, a, b');
      MergeFromSnoc(acc, a + b', f);
      MergeFromSnoc(MergeFrom(acc, a), b', f);
    }
  }

  /** An error ends the loop: no later fragment is looked at. */
  lemma {:induction false} MergeFromFailure(e: Error, fs: seq<Located>)
    ensures MergeFrom(Failure(e), fs) == Failure(e)
  {
    if fs != [] {
      MergeFromFailure(e, fs[..|fs| - 1]);
    }
  }

  // ---------------------------------------------------------------------------
  // Document.get_tags: what the merge does

  /** The tag `t` takes the fragment `f` when its parameters parse and have a
      `continued` key, and the fragment has its tag name; the fragment's own
      parameters are not consulted. */
  predicate Takes(t: TagValue, f: Located) {
    && Parameters(t.raw, t.tagName).Success?
    && "continued" in Keys(Parameters(t.raw, t.tagName).value)
    && TagName(f.raw) == t.tagName
  }

  /** The last tag absorbing the fragment: its continued tagged string becomes
      its own tagged string, a space and the fragment's tagged string. */
  function Absorbed(acc: seq<TagValue>, f: Located): Result<seq<TagValue>, Error>
    requires acc != []
  {
    var last := acc[|acc| - 1];
    AbsorbedWith(acc, TaggedString(last.raw, last.tagName, last.textLineText), Tagged(f))
  }

  /** `Absorbed` once the two tagged strings `a` and `b` are known. */
  function AbsorbedWith(acc: seq<TagValue>, a: Result<string, Error>, b: Result<string, Error>): Result<seq<TagValue>, Error>
    requires acc != []
  {
    match a
    case Failure(e) => Failure(e)
    case Success(a) =>
      match b
      case Failure(e) => Failure(e)
      case Success(b) => Success(acc[..|acc| - 1] + [acc[|acc| - 1].(continuedTaggedString := Some(a + " " + b))])
  }

  /** `MergeStep` on a non-empty list once the last tag's parameters `p`, its
      tagged string `a` and the fragment's tagged string `b` are known. */
  lemma AbsorbWithCases(acc: seq<TagValue>, f: Located, p: Result<Dict<string>, Error>,
                        a: Result<string, Error>, b: Result<string, Error>)
    requires acc != []
    requires p.Success? && a.Failure? ==> !IsIndexError(a.error)
    ensures (match AbsorbWith(acc, f, p, a, b) case Some(r) => r case None => AppendedWith(acc, f, b)) ==
      if p.Failure? && !IsIndexError(p.error) then Failure(p.error)
      else if p.Success? && "continued" in Keys(p.value) && TagName(f.raw) == acc[|acc| - 1].tagName then AbsorbedWith(acc, a, b)
      else AppendedWith(acc, f, b)
  {
  }

  /** Once a tag's parameters parse, its tagged string raises no `IndexError`. */
  lemma OwnTaggedStringError(raw: string, name: string, text: Option<string>)
    ensures Parameters(raw, name).Success? && TaggedString(raw, name, text).Failure? ==>
      !IsIndexError(TaggedString(raw, name, text).error)
  {
  }

  /** One turn without the `try`: an error from the last tag's parameters
      other than `IndexError` is raised; otherwise the fragment is absorbed
      exactly when the last tag takes it, and appended when it does not. The
      `except IndexError` makes no other difference: an `IndexError` from the
      fragment's own tagged string is raised again by the append. */
  lemma MergeStepCases(acc: seq<TagValue>, f: Located)
    ensures MergeStep(acc, f) ==
      if acc == [] then Appended(acc, f)
      else
        var p := Parameters(acc[|acc| - 1].raw, acc[|acc| - 1].tagName);
        if p.Failure? && !IsIndexError(p.error) then Failure(p.error)
        else if Takes(acc[|acc| - 1], f) then Absorbed(acc, f)
        else Appended(acc, f)
  {
    if acc != [] {
      var last := acc[|acc| - 1];
      OwnTaggedStringError(last.raw, last.tagName, last.textLineText);
      AbsorbWithCases(acc, f, Parameters(last.raw, last.tagName), TaggedString(last.raw, last.tagName, last.textLineText), Tagged(f));
    }
  }

  /** What the merge reads of a fragment: its tag name, its parameters and its
      tagged string on its own line. */
  datatype Reading = Reading(name: string, params: Result<Dict<string>, Error>, tagged: Result<string, Error>)

  function Read(f: Located): Reading {
    Reading(TagName(f.raw), Parameters(f.raw, TagName(f.raw)), Tagged(f))
  }

  function ReadAll(fs: seq<Located>): seq<Reading> {
    if fs == [] then [] else ReadAll(fs[..|fs| - 1]) + [Read(fs[|fs| - 1])]
  }

  lemma {:induction false} ReadAllAt(fs: seq<Located>, i: nat)
    requires i < |fs|
    ensures |ReadAll(fs)| == |fs| && ReadAll(fs)[i] == Read(fs[i])
  {
    if i < |fs| - 1 {
      ReadAllAt(fs[..|fs| - 1], i);
    } else if |fs| > 1 {
      ReadAllAt(fs[..|fs| - 1], 0);
    }
  }

  /** A tag whose reading is `g` takes a fragment whose reading is `r`: its
      parameters parse and have a `continued` key, and the names agree. */
  predicate Continues(g: Reading, r: Reading) {
    g.params.Success? && "continued" in Keys(g.params.value) && r.name == g.name
  }

  /** Where the run of fragments absorbed by the `j`th kept fragment ends. */
  function Next(kept: seq<nat>, j: nat, n: nat): nat
    requires j < |kept|
  {
    if j + 1 < |kept| then kept[j + 1] else n
  }

  /** The tag `t` was made from the fragment `f`, read as `r`: its raw text and
      name, its tagged string on its own line, and the ids, text and points of
      its region and line. */
  predicate Made(t: TagValue, f: Located, r: Reading) {
    && r.tagged.Success?
    && t == TagValue(f.raw, r.name, Some(r.tagged.value), t.continuedTaggedString, Some(f.regionId),
                     Some(f.line.id), f.line.text, f.line.coords, f.line.baseline)
  }

  /** The tag `t` of fragment `lo` absorbed the fragments after it up to `hi`:
      it took each of them, and its continued tagged string is its own tagged
      string joined to that of the last of them (`None` if there are none). */
  predicate Absorbs(rs: seq<Reading>, t: TagValue, lo: nat, hi: nat)
    requires lo < hi <= |rs|
  {
    && (forall i :: lo < i < hi ==> Continues(rs[lo], rs[i]) && rs[i].tagged.Success?)
    && (hi == lo + 1 ==> t.continuedTaggedString == None)
    && (hi > lo + 1 ==>
          && t.taggedString.Some? && rs[hi - 1].tagged.Success?
          && t.continuedTaggedString == Some(t.taggedString.value + " " + rs[hi - 1].tagged.value))
  }

  /** The tag `t` was made from fragment `lo` of `fs` (read as `rs`), absorbed
      the fragments after it up to `hi`, and did not take fragment `hi`. */
  predicate Covers(fs: seq<Located>, rs: seq<Reading>, t: TagValue, lo: nat, hi: nat) {
    && |rs| == |fs| && lo < hi <= |fs|
    && Made(t, fs[lo], rs[lo])
    && Absorbs(rs, t, lo, hi)
    && (hi < |fs| ==> !Continues(rs[lo], rs[hi]))
  }

  /** Each kept index is below the next one, the last below `n`. */
  predicate Ordered(kept: seq<nat>, n: nat) {
    forall j :: 0 <= j < |kept| ==> kept[j] < Next(kept, j, n) <= n
  }

  /** The tags `tags` come from the fragments `fs`, read as `rs`: the `j`th tag
      was made from fragment `kept[j]`; the kept fragments are in order and
      include the first; each fragment between two kept ones was absorbed by
      the tag before it; and the tag before a kept fragment did not take it. */
  ghost predicate Explains(fs: seq<Located>, rs: seq<Reading>, tags: seq<TagValue>, kept: seq<nat>) {
    && |rs| == |fs|
    && |kept| == |tags|
    && (|fs| == 0 <==> |kept| == 0)
    && (|kept| > 0 ==> kept[0] == 0)
    && Ordered(kept, |fs|)
    && (forall j {:trigger Covers(fs, rs, tags[j], kept[j], Next(kept, j, |fs|))} ::
          0 <= j < |kept| ==> Covers(fs, rs, tags[j], kept[j], Next(kept, j, |fs|)))
  }

  /** A fragment after the end of a tag's run leaves what the tag covers as
      it was. */
  lemma CoversExtend(fs: seq<Located>, rs: seq<Reading>, t: TagValue, lo: nat, hi: nat, f: Located, r: Reading)
    requires Covers(fs, rs, t, lo, hi)
    requires hi == |fs| ==> !Continues(rs[lo], r)
    ensures Covers(fs + [f], rs + [r], t, lo, hi)
  {
    var rs' := rs + [r];
    forall i | lo < i < hi
      ensures Continues(rs'[lo], rs'[i]) && rs'[i].tagged.Success?
    {
      assert rs'[i] == rs[i];
    }
  }

  /** A fragment the last tag takes extends its run and its continued tagged
      string. */
  lemma CoversAbsorb(fs: seq<Located>, rs: seq<Reading>, t: TagValue, lo: nat, f: Located, r: Reading)
    requires Covers(fs, rs, t, lo, |fs|)
    requires Continues(rs[lo], r) && r.tagged.Success?
    ensures t.taggedString.Some?
    ensures Covers(fs + [f], rs + [r], t.(continuedTaggedString := Some(t.taggedString.value + " " + r.tagged.value)), lo, |fs| + 1)
  {
    var rs' := rs + [r];
    forall i | lo < i < |fs| + 1
      ensures Continues(rs'[lo], rs'[i]) && rs'[i].tagged.Success?
    {
      if i < |fs| {
        assert rs'[i] == rs[i];
      }
    }
  }

  lemma ExplainsAppend(fs: seq<Located>, rs: seq<Reading>, tags: seq<TagValue>, kept: seq<nat>, f: Located, r: Reading)
    requires Explains(fs, rs, tags, kept) && r.tagged.Success?
    requires tags != [] ==> !Continues(rs[kept[|kept| - 1]], r)
    ensures Explains(fs + [f], rs + [r], tags + [Provenance(f, r.name, r.tagged.value)], kept + [|fs|])
  {
    var fs', rs', tags', kept' := fs + [f], rs + [r], tags + [Provenance(f, r.name, r.tagged.value)], kept + [|fs|];
    forall j | 0 <= j < |kept'|
      ensures Covers(fs', rs', tags'[j], kept'[j], Next(kept', j, |fs'|))
    {
      if j < |kept| {
        assert Covers(fs, rs, tags[j], kept[j], Next(kept, j, |fs|));
        CoversExtend(fs, rs, tags[j], kept[j], Next(kept, j, |fs|), f, r);
      }
    }
  }

  lemma ExplainsAbsorb(fs: seq<Located>, rs: seq<Reading>, tags: seq<TagValue>, kept: seq<nat>, f: Located, r: Reading)
    requires Explains(fs, rs, tags, kept) && tags != []
    requires Continues(rs[kept[|kept| - 1]], r) && r.tagged.Success?
    ensures tags[|tags| - 1].taggedString.Some?
    ensures var last := tags[|tags| - 1];
      Explains(fs + [f], rs + [r], tags[..|tags| - 1] + [last.(continuedTaggedString := Some(last.taggedString.value + " " + r.tagged.value))], kept)
  {
    var n := |tags| - 1;
    var last := tags[n];
    assert Covers(fs, rs, last, kept[n], |fs|);
    CoversAbsorb(fs, rs, last, kept[n], f, r);
    var fs', rs', tags' := fs + [f], rs + [r], tags[..n] + [last.(continuedTaggedString := Some(last.taggedString.value + " " + r.tagged.value))];
    forall j | 0 <= j < |kept|
      ensures Covers(fs', rs', tags'[j], kept[j], Next(kept, j, |fs'|))
    {
      if j < n {
        assert tags'[j] == tags[j];
        assert Covers(fs, rs, tags[j], kept[j], Next(kept, j, |fs|));
        CoversExtend(fs, rs, tags[j], kept[j], Next(kept, j, |fs|), f, r);
      }
    }
  }

  /** One turn of the merge keeps the tags explained by their fragments. */
  lemma ExplainsStep(fs: seq<Located>, tags: seq<TagValue>, kept: seq<nat>, f: Located)
    requires Explains(fs, ReadAll(fs), tags, kept) && MergeStep(tags, f).Success?
    ensures exists kept' :: Explains(fs + [f], ReadAll(fs + [f]), MergeStep(tags, f).value, kept')
  {
    var rs, r := ReadAll(fs), Read(f);
    assert (fs + [f])[..|fs|] == fs;
    assert ReadAll(fs + [f]) == rs + [r];
    MergeStepCases(tags, f);
    if tags == [] {
      ExplainsAppend(fs, rs, tags, kept, f, r);
    } else {
      var n := |tags| - 1;
      var last := tags[n];
      ReadAllAt(fs, kept[n]);
      assert Covers(fs, rs, last, kept[n], |fs|);
      assert Parameters(last.raw, last.tagName) == rs[kept[n]].params;
      assert Takes(last, f) == Continues(rs[kept[n]], r);
      if Continues(rs[kept[n]], r) {
        assert TaggedString(last.raw, last.tagName, last.textLineText) == rs[kept[n]].tagged;
        ExplainsAbsorb(fs, rs, tags, kept, f, r);
      } else {
        assert r.tagged.Success? by {
          assert MergeStep(tags, f) == Appended(tags, f);
        }
        ExplainsAppend(fs, rs, tags, kept, f, r);
      }
    }
  }

  /** Every list of tags the merge returns is explained by its fragments. */
  lemma {:induction false} MergeExplained(fs: seq<Located>)
    requires Merge(fs).Success?
    ensures exists kept :: Explains(fs, ReadAll(fs), Merge(fs).value, kept)
  {
    if fs == [] {
      assert Merge(fs) == Success([]) && ReadAll(fs) == [];
      assert Explains(fs, [], [], []);
    } else {
      var p, f := fs[..|fs| - 1], fs[|fs| - 1];
      assert fs == p + [f];
      MergeFromSnoc(Success([]), p, f);
      assert Merge(p).Success?;
      MergeExplained(p);
      var kept :| Explains(p, ReadAll(p), Merge(p).value, kept);
      ExplainsStep(p, Merge(p).value, kept, f);
    }
  }

  /** The `j`th kept fragment is at least the `j`th fragment. */
  lemma {:induction false} KeptAtLeast(kept: seq<nat>, n: nat, j: nat)
    requires Ordered(kept, n) && j < |kept|
    ensures j <= kept[j]
  {
    if j > 0 {
      KeptAtLeast(kept, n, j - 1);
      assert Next(kept, j - 1, n) == kept[j];
    }
  }

  /** A tag made from a fragment has the name its raw text gives and the
      tagged string its parameters select on its own line. */
  lemma MadeFromReading(t: TagValue, f: Located)
    requires Made(t, f, Read(f))
    ensures t.tagName == TagName(t.raw) && t.taggedString.Some?
    ensures TaggedString(t.raw, t.tagName, t.textLineText) == Success(t.taggedString.value)
  {
  }

  /** The merge returns at most one tag per fragment, and at least one when
      there is a fragment; each tag's name is the one its raw text gives, and
      its tagged string is the one its parameters select on its own line. */
  lemma MergeTagsWellFormed(fs: seq<Located>)
    requires Merge(fs).Success?
    ensures |Merge(fs).value| <= |fs|
    ensures fs != [] ==> Merge(fs).value != []
    ensures forall t :: t in Merge(fs).value ==>
      && t.tagName == TagName(t.raw)
      && t.taggedString.Some?
      && TaggedString(t.raw, t.tagName, t.textLineText) == Success(t.taggedString.value)
  {
    var tags, rs := Merge(fs).value, ReadAll(fs);
    MergeExplained(fs);
    var kept :| Explains(fs, rs, tags, kept);
    if tags != [] {
      KeptAtLeast(kept, |fs|, |tags| - 1);
    }
    forall t | t in tags
      ensures t.tagName == TagName(t.raw) && t.taggedString.Some?
      ensures TaggedString(t.raw, t.tagName, t.textLineText) == Success(t.taggedString.value)
    {
      var j :| 0 <= j < |tags| && tags[j] == t;
      assert Covers(fs, rs, t, kept[j], Next(kept, j, |fs|));
      ReadAllAt(fs, kept[j]);
      MadeFromReading(t, fs[kept[j]]);
    }
  }

  // ---------------------------------------------------------------------------
  // Document.get_tags: the loop

  /** The fields of each tag of a list. */
  function Views(tags: seq<Tag>): (r: seq<TagValue>)
    reads tags
    ensures |r| == |tags|
  {
    if tags == [] then [] else Views(tags[..|tags| - 1]) + [tags[|tags| - 1].View()]
  }

  /** The list of tag objects `r` holds, or the error it carries, is what the
      specification `expected` gives; no tag object is listed twice. */
  ghost predicate Outcome(r: Result<seq<Tag>, Error>, expected: Result<seq<TagValue>, Error>)
    reads if r.Success? then r.value else []
  {
    && (r.Success? <==> expected.Success?)
    && (r.Failure? ==> r.error == expected.error)
    && (r.Success? ==> Distinct(r.value) && Views(r.value) == expected.value)
  }

  /** `r` is what the loop gives over the fragments `fs`, starting from
      `start`. */
  ghost predicate Merged(r: Result<seq<Tag>, Error>, start: Result<seq<TagValue>, Error>, fs: seq<Located>)
    reads if r.Success? then r.value else []
  {
    Outcome(r, MergeFrom(start, fs))
  }

  /** The body of the innermost loop of `Document.get_tags`, for one fragment. */
  method MergeFragment(tags: seq<Tag>, f: Located) returns (r: Result<seq<Tag>, Error>)
    requires Distinct(tags)
    modifies tags
    ensures Outcome(r, MergeStep(old(Views(tags)), f))
    ensures r.Success? ==> forall t :: t in r.value ==> t in tags || fresh(t)
  {
    ghost var acc := Views(tags);
    var absorbed := TryAbsorbFragment(tags, f);
    if absorbed.Some? {
      return absorbed.value;
    }
    assert MergeStep(acc, f) == Appended(acc, f);
    r := AppendFragment(tags, f);
  }

  /** One turn of the loop, stated against the turns `done` before it. */
  method MergeTurn(tags: seq<Tag>, f: Located, ghost start: Result<seq<TagValue>, Error>, ghost done: seq<Located>)
      returns (r: Result<seq<Tag>, Error>)
    requires Merged(Success(tags), start, done)
    modifies tags
    ensures Merged(r, start, done + [f])
    ensures r.Success? ==> forall t :: t in r.value ==> t in tags || fresh(t)
  {
    MergeFromSnoc(start, done, f);
    r := MergeFragment(tags, f);
  }

  /** The `try` block: the last tag absorbs the fragment, or an error other
      than `IndexError` is raised, or (`None`) the loop goes on to append. */
  method TryAbsorbFragment(tags: seq<Tag>, f: Located) returns (r: Option<Result<seq<Tag>, Error>>)
    requires Distinct(tags)
    modifies tags
    ensures r.None? <==> TryAbsorb(old(Views(tags)), f).None?
    ensures r.Some? ==> Outcome(r.value, TryAbsorb(old(Views(tags)), f).value)
    ensures r.Some? && r.value.Success? ==> r.value.value == tags
    ensures r.None? || r.value.Failure? ==> unchanged(tags)
  {
    ghost var acc := Views(tags);
    if |tags| == 0 {
      return None;
    }
    var prev := tags[|tags| - 1];
    ghost var expected := AbsorbWith(acc, f, prev.GetParameters(), prev.GetTaggedString(prev.textLineText), Tagged(f));
    assert acc[|tags| - 1] == prev.View();
    assert TryAbsorb(acc, f) == expected;
    var params := prev.GetParameters();
    if params.Failure? {
      return Caught(params.error);
    }
    if !("continued" in Keys(params.value) && TagName(f.raw) == prev.tagName) {
      return None;
    }
    var a := prev.GetTaggedString(prev.textLineText);
    if a.Failure? {
      return Caught(a.error);
    }
    var b := TaggedString(f.raw, TagName(f.raw), f.line.text);
    if b.Failure? {
      return Caught(b.error);
    }
    ContinueLast(tags, a.value + " " + b.value);
    return Some(Success(tags));
  }

  /** The append after the `try` block: the fragment's tag takes its tagged
      string and the ids, text and points of its region and line. */
  method AppendFragment(tags: seq<Tag>, f: Located) returns (r: Result<seq<Tag>, Error>)
    requires Distinct(tags)
    ensures Outcome(r, Appended(Views(tags), f))
    ensures r.Success? ==> |r.value| == |tags| + 1 && r.value[..|tags|] == tags && fresh(r.value[|tags|])
  {
    var tag := new Tag(f.raw, None);
    var s := tag.GetTaggedString(f.line.text);
    if s.Failure? {
      return Failure(s.error);
    }
    var tags' := Append(tags, tag, f, s.value);
    return Success(tags');
  }

  /** The assignments to the fresh tag of the fragment and `tags.append(tag)`. */
  method Append(tags: seq<Tag>, tag: Tag, f: Located, s: string) returns (r: seq<Tag>)
    requires Distinct(tags) && tag !in tags
    requires tag.raw == f.raw && tag.tagName == TagName(f.raw) && tag.continuedTaggedString == None
    modifies tag
    ensures r == tags + [tag] && Distinct(r)
    ensures Views(r) == Views(tags) + [Provenance(f, TagName(f.raw), s)]
  {
    Record(tag, f, s);
    ViewsAppend(tags, tag);
    r := tags + [tag];
  }

  /** `tags[-1].set_continued_tagged_string(s)` */
  method ContinueLast(tags: seq<Tag>, s: string)
    requires tags != [] && Distinct(tags)
    modifies tags[|tags| - 1]
    ensures Views(tags) == old(Views(tags))[..|tags| - 1] + [old(Views(tags))[|tags| - 1].(continuedTaggedString := Some(s))]
  {
    ghost var others := Views(tags[..|tags| - 1]);
    var last := tags[|tags| - 1];
    assert old(Views(tags)) == others + [last.View()];
    last.SetContinuedTaggedString(s);
    assert Views(tags[..|tags| - 1]) == others;
    assert Views(tags) == others + [last.View()];
  }

  /** The assignments before `tags.append(tag)`. */
  method Record(tag: Tag, f: Located, s: string)
    requires tag.raw == f.raw && tag.tagName == TagName(f.raw) && tag.continuedTaggedString == None
    modifies tag
    ensures tag.View() == Provenance(f, TagName(f.raw), s)
  {
    tag.taggedString := Some(s);
    tag.textRegionId := Some(f.regionId);
    tag.textLineId := Some(f.line.id);
    tag.textLineText := f.line.text;
    tag.textLineCoordsPoints := f.line.coords;
    tag.textLineBaselinePoints := f.line.baseline;
  }

  lemma ViewsAppend(tags: seq<Tag>, tag: Tag)
    ensures Views(tags + [tag]) == Views(tags) + [tag.View()]
  {
    assert (tags + [tag])[..|tags|] == tags;
  }

  // ---------------------------------------------------------------------------
  // Document.get_tags: the three nested loops

  /** The loop over the tags of one line. */
  method MergeLine(tags: seq<Tag>, regionId: string, line: Line) returns (r: Result<seq<Tag>, Error>)
    requires Distinct(tags)
    modifies set t | t in tags
    ensures Merged(r, Success(old(Views(tags))), LineFragments(regionId, line))
    ensures r.Success? ==> forall t :: t in r.value ==> t in tags || fresh(t)
  {
    ghost var start := Success(Views(tags));
    var raws := Fragments(line.custom);
    ghost var fs := LineFragments(regionId, line);
    var current := tags;
    for k := 0 to |raws|
      invariant Merged(Success(current), start, fs[..k])
      invariant forall t :: t in current ==> t in tags || fresh(t)
    {
      var f := Located(raws[k], regionId, line);
      assert fs[..k] + [f] == fs[..k + 1];
      var step := MergeTurn(current, f, start, fs[..k]);
      if step.Failure? {
        assert fs == fs[..k + 1] + fs[k + 1..];
        MergeFromStops(step, start, fs[..k + 1], fs[k + 1..]);
        return step;
      }
      current := step.value;
    }
    assert fs[..|raws|] == fs;
    return Success(current);
  }

  /** An error raised after the fragments `done` is the outcome of the whole
      loop, whatever fragments follow. */
  lemma MergeFromStops(r: Result<seq<Tag>, Error>, start: Result<seq<TagValue>, Error>, done: seq<Located>, rest: seq<Located>)
    requires r.Failure? && Merged(r, start, done)
    ensures Merged(r, start, done + rest)
  {
    MergeFromFails(start, done, rest, r.error);
  }

  lemma MergeFromFails(start: Result<seq<TagValue>, Error>, done: seq<Located>, rest: seq<Located>, e: Error)
    requires MergeFrom(start, done) == Failure(e)
    ensures MergeFrom(start, done + rest) == Failure(e)
  {
    MergeFromConcat(start, done, rest);
    MergeFromFailure(e, rest);
  }

  lemma LinesFragmentsSplit(regionId: string, lines: seq<Line>, j: nat)
    requires j < |lines|
    ensures LinesFragments(regionId, lines[..j + 1]) == LinesFragments(regionId, lines[..j]) + LineFragments(regionId, lines[j])
    ensures LinesFragments(regionId, lines) == LinesFragments(regionId, lines[..j + 1]) + LinesFragments(regionId, lines[j + 1..])
  {
    var before, here, after := InRegion(regionId, lines[..j]), InRegion(regionId, lines[..j + 1]), InRegion(regionId, lines[j + 1..]);
    assert here == before + [(regionId, lines[j])];
    assert InRegion(regionId, lines) == here + after;
    PlacedFragmentsConcat(before, [(regionId, lines[j])]);
    PlacedFragmentsConcat(here, after);
    assert PerLine([(regionId, lines[j])]) == [LineFragments(regionId, lines[j])];
    assert Flatten([LineFragments(regionId, lines[j])]) == LineFragments(regionId, lines[j]);
  }

  lemma RegionsFragmentsSplit(regions: seq<Region>, i: nat)
    requires i < |regions|
    ensures RegionsFragments(regions[..i + 1]) == RegionsFragments(regions[..i]) + LinesFragments(regions[i].id, regions[i].lines)
    ensures RegionsFragments(regions) == RegionsFragments(regions[..i + 1]) + RegionsFragments(regions[i + 1..])
  {
    assert regions[..i + 1][..i] == regions[..i];
    assert regions == regions[..i + 1] + regions[i + 1..];
    DocumentLinesConcat(regions[..i + 1], regions[i + 1..]);
    PlacedFragmentsConcat(DocumentLines(regions[..i]), InRegion(regions[i].id, regions[i].lines));
    PlacedFragmentsConcat(DocumentLines(regions[..i + 1]), DocumentLines(regions[i + 1..]));
  }

  lemma PlacedFragmentsConcat(a: seq<(string, Line)>, b: seq<(string, Line)>)
    ensures PlacedFragments(a + b) == PlacedFragments(a) + PlacedFragments(b)
  {
    assert PerLine(a + b) == PerLine(a) + PerLine(b);
    FlattenConcat(PerLine(a), PerLine(b));
  }

  lemma {:induction false} DocumentLinesConcat(a: seq<Region>, b: seq<Region>)
    ensures DocumentLines(a + b) == DocumentLines(a) + DocumentLines(b)
  {
    if b == [] {
      assert a + b == a;
    } else {
      var b', last := b[..|b| - 1], b[|b| - 1];
      var here := InRegion(last.id, last.lines);
      assert (a + b)[..|a + b| - 1] == a + b' && (a + b)[|a + b| - 1] == last;
      calc {
        DocumentLines(a + b);
        DocumentLines(a + b') + here;
        { DocumentLinesConcat(a, b'); }
        (DocumentLines(a) + DocumentLines(b')) + here;
        DocumentLines(a) + (DocumentLines(b') + here);
        DocumentLines(a) + DocumentLines(b);
      }
    }
  }

  /** The loop over the lines of one region. */
  method MergeRegion(tags: seq<Tag>, region: Region) returns (r: Result<seq<Tag>, Error>)
    requires Distinct(tags)
    modifies set t | t in tags
    ensures Merged(r, Success(old(Views(tags))), LinesFragments(region.id, region.lines))
    ensures r.Success? ==> forall t :: t in r.value ==> t in tags || fresh(t)
  {
    ghost var start := Success(Views(tags));
    var lines := region.lines;
    var current := tags;
    for j := 0 to |lines|
      invariant Merged(Success(current), start, LinesFragments(region.id, lines[..j]))
      invariant forall t :: t in current ==> t in tags || fresh(t)
    {
      ghost var done := LinesFragments(region.id, lines[..j]);
      ghost var here := LineFragments(region.id, lines[j]);
      ghost var rest := LinesFragments(region.id, lines[j + 1..]);
      LinesFragmentsSplit(region.id, lines, j);
      MergeFromConcat(start, done, here);
      var step := MergeLine(current, region.id, lines[j]);
      if step.Failure? {
        MergeFromStops(step, start, done + here, rest);
        return step;
      }
      current := step.value;
    }
    assert lines[..|lines|] == lines;
    return Success(current);
  }

  /** `tag.py`'s `Document`, by its text regions in document order. */
  class Document {
    const regions: seq<Region>

    constructor (regions: seq<Region>)
      ensures this.regions == regions
    {
      this.regions := regions;
    }

    /** `Document.get_tags`: the tags of the document in order, where a tag
        with a `continued` parameter absorbs the tagged strings of the
        fragments of the same name that follow it; or the error raised. */
    method GetTags() returns (r: Result<seq<Tag>, Error>)
      ensures Outcome(r, Merge(RegionsFragments(regions)))
      ensures r.Success? ==> forall t :: t in r.value ==> fresh(t)
    {
      var tags: seq<Tag> := [];
      assert Views(tags) == [];
      for i := 0 to |regions|
        invariant Merged(Success(tags), Success([]), RegionsFragments(regions[..i]))
        invariant forall t :: t in tags ==> fresh(t)
      {
        ghost var done := RegionsFragments(regions[..i]);
        ghost var here := LinesFragments(regions[i].id, regions[i].lines);
        ghost var rest := RegionsFragments(regions[i + 1..]);
        RegionsFragmentsSplit(regions, i);
        MergeFromConcat(Success([]), done, here);
        var step := MergeRegion(tags, regions[i]);
        if step.Failure? {
          MergeFromStops(step, Success([]), done + here, rest);
          return step;
        }
        tags := step.value;
      }
      assert regions[..|regions|] == regions;
      return Success(tags);
    }
  }
}
