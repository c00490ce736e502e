/** The pure part of `tag.py`: decoding the `custom` attribute of a PAGE-XML
    `TextLine` into raw tag fragments, and one fragment `name {k1:v1;k2:v2;...}`
    into its tag name, its parameters and the substring of the line it tags. */
module TagParse {
  import opened Wrappers
  import opened PyStr
  import opened PyDict

  /** The exceptions the decoding raises, named after their cause. */
  datatype Error =
    | EmptySeparator                 // ValueError: `raw.split("")` for an empty tag name
    | MissingBody                    // IndexError: the tag name does not occur in the fragment
    | MissingColon(item: string)     // IndexError: a parameter item without a ':'
    | MissingParameter(key: string)  // KeyError: no `offset` or no `length` parameter
    | NotAnInteger(value: string)    // ValueError: `int()` of a parameter value
    | MissingText                    // TypeError: slicing the absent text of a line
    | NoReadingOrder                 // AttributeError: `re.search` found no digits
    | UnknownAttribute(name: string) // AttributeError: a header column that names no tag attribute

  /** What separates the fragments of a `custom` attribute. */
  const Delimiter: string := ";}"

  // ---------------------------------------------------------------------------
  // Line.get_tags and Line.get_reading_order

  /** `Line.get_tags`: split the attribute on `;}`, drop the first piece (the
      line's own `readingOrder {...` entry) and the last (what follows the final
      delimiter), and restore the `}` of each stripped remaining piece. */
  function Fragments(custom: string): seq<string> {
    Interior(Split(custom, Delimiter))
  }

  /** `[item.strip() + "}" for item in pieces][1:-1]`: one fragment for each
      piece but the first and the last. */
  function Interior(pieces: seq<string>): (r: seq<string>)
    ensures |r| == (if |pieces| <= 2 then 0 else |pieces| - 2)
    ensures forall i :: 0 <= i < |r| ==> r[i] == Strip(pieces[i + 1]) + ['}']
  {
    if |pieces| <= 2 then []
    else seq(|pieces| - 2, i requires 0 <= i < |pieces| - 2 => Strip(pieces[i + 1]) + ['}'])
  }

  /** Two occurrences of `;}` never overlap: one that is not the first starts
      after it, in the rest of the string. */
  lemma LaterDelimiter(custom: string, k: nat, i: nat)
    requires Find(custom, Delimiter) == Some(k)
    requires OccursAt(custom, Delimiter, i) && i != k
    ensures k + 2 <= i && OccursAt(custom[k + 2..], Delimiter, i - k - 2)
  {
    assert k < i;
    assert i != k + 1 by {
      assert custom[i] == custom[i..i + 2][0] == ';';
      assert custom[k + 1] == custom[k..k + 2][1] == '}';
    }
    OccursAtSuffix(custom, Delimiter, k + 2, i - k - 2);
  }

  /** A `custom` attribute yields no fragment exactly when `;}` occurs in it at
      most once. */
  lemma FragmentsNeedTwoDelimiters(custom: string)
    ensures Fragments(custom) == [] <==>
      forall i, j :: OccursAt(custom, Delimiter, i) && OccursAt(custom, Delimiter, j) ==> i == j
  {
    var pieces := Split(custom, Delimiter);
    match Find(custom, Delimiter)
    case None =>
      assert |pieces| == 1;
    case Some(k) =>
      var rest := custom[k + 2..];
      assert pieces == [custom[..k]] + Split(rest, Delimiter);
      match Find(rest, Delimiter)
      case None =>
        assert |pieces| == 2;
        forall i | OccursAt(custom, Delimiter, i)
          ensures i == k
        {
          if i != k {
            LaterDelimiter(custom, k, i);
          }
        }
      case Some(m) =>
        assert |pieces| >= 3;
        OccursAtSuffix(custom, Delimiter, k + 2, m);
        assert OccursAt(custom, Delimiter, k + 2 + m);
  }

  /** A stripped piece closed with `}` is non-empty, ends with `}` and does not
      start with whitespace, so its tag name is never empty. */
  lemma ClosedPieceShape(piece: string)
    ensures var f := Strip(piece) + ['}'];
      |f| > 0 && f[|f| - 1] == '}' && !IsSpace(f[0]) && TagName(f) != []
  {
    var t := Strip(piece);
    var f := t + ['}'];
    assert f[0] == (if t == [] then '}' else t[0]);
  }

  /** Every fragment ends with `}` and does not start with whitespace; its tag
      name is never empty. */
  lemma FragmentShape(custom: string)
    ensures forall f :: f in Fragments(custom) ==>
      |f| > 0 && f[|f| - 1] == '}' && !IsSpace(f[0]) && TagName(f) != []
  {
    InteriorShape(Split(custom, Delimiter));
  }

  lemma InteriorShape(pieces: seq<string>)
    ensures forall f :: f in Interior(pieces) ==>
      |f| > 0 && f[|f| - 1] == '}' && !IsSpace(f[0]) && TagName(f) != []
  {
    forall f | f in Interior(pieces)
      ensures |f| > 0 && f[|f| - 1] == '}' && !IsSpace(f[0]) && TagName(f) != []
    {
      var i :| 0 <= i < |Interior(pieces)| && Interior(pieces)[i] == f;
      ClosedPieceShape(pieces[i + 1]);
    }
  }

  /** The text before the first `;}`: the line's own `readingOrder {...` entry. */
  function Head(custom: string): string {
    Split(custom, Delimiter)[0]
  }

  /** `Line.get_reading_order`: the value of the first run of digits in the
      head piece with `;}` appended back. */
  function ReadingOrder(custom: string): Result<nat, Error> {
    match SearchDigits(Head(custom) + Delimiter)
    case None => Failure(NoReadingOrder)
    case Some(digits) => Success(DecimalValue(digits))
  }

  /** The reading order is the value of the leftmost maximal digit run of the
      head piece; appending `;}` adds no digits, and a head without a digit is
      an error. */
  lemma ReadingOrderOfHead(custom: string)
    ensures ReadingOrder(custom).Failure? <==> forall k :: 0 <= k < |Head(custom)| ==> !IsDigit(Head(custom)[k])
    ensures ReadingOrder(custom).Failure? ==> ReadingOrder(custom).error == NoReadingOrder
    ensures ReadingOrder(custom).Success? ==>
      exists i, ds :: LeftmostDigitRun(Head(custom), i, ds) && ReadingOrder(custom).value == DecimalValue(ds)
  {
    var head := Head(custom);
    SearchDigitsIgnoresSuffix(head, Delimiter);
    if SearchDigits(head).Some? {
      SearchDigitsLeftmost(head);
    }
  }

  // ---------------------------------------------------------------------------
  // Tag.__post_init__ and Tag.get_parameters

  /** `raw.split(" ")[0]`: the tag name. */
  function TagName(raw: string): (name: string)
    ensures |name| <= |raw| && name == raw[..|name|]
    ensures ' ' !in name
    ensures |name| == |raw| || raw[|name|] == ' '
  {
    SplitOnChar(raw, ' ');
    Split(raw, " ")[0]
  }

  /** One parameter item `key:value`: the stripped item split on `:`; the key is
      the first part and the value the second. */
  function ParseItem(item: string): Result<(string, string), Error> {
    var parts := Split(Strip(item), ":");
    if |parts| < 2 then Failure(MissingColon(item)) else Success((parts[0], parts[1]))
  }

  /** `k` is the text of `t` before its first `:` and `v` the text between
      its first and its second `:` (or the end). */
  predicate KeyValueOf(t: string, k: string, v: string) {
    && ':' !in k && ':' !in v
    && |k| + 1 + |v| <= |t|
    && t[..|k|] == k && t[|k|] == ':' && t[|k| + 1..|k| + 1 + |v|] == v
    && (|k| + 1 + |v| == |t| || t[|k| + 1 + |v|] == ':')
  }

  /** The key is the text before the first `:` of the stripped item, the value
      the text between the first and the second `:`; anything after a second
      `:` is lost, and an item without `:` is an error. */
  lemma ParseItemColons(item: string)
    ensures ParseItem(item).Success? <==> ':' in Strip(item)
    ensures ParseItem(item).Failure? ==> ParseItem(item).error == MissingColon(item)
    ensures ParseItem(item).Success? ==> KeyValueOf(Strip(item), ParseItem(item).value.0, ParseItem(item).value.1)
  {
    var t := Strip(item);
    SplitOnChar(t, ':');
    if ':' in t {
      FirstTwoColonPieces(t);
    }
  }

  lemma FirstTwoColonPieces(t: string)
    requires |Split(t, ":")| >= 2
    ensures KeyValueOf(t, Split(t, ":")[0], Split(t, ":")[1])
  {
    SplitOnChar(t, ':');
    var parts := Split(t, ":");
    var k := parts[0];
    var rest := t[|k| + 1..];
    SplitOnChar(rest, ':');
    var v := parts[1];
    assert v == Split(rest, ":")[0] == rest[..|v|] == rest[0..|v|];
    SliceOfSlice(t, |k| + 1, 0, |v|);
  }

  /** The comprehension over the items of `get_parameters`, which stops at the
      first item that raises. */
  function ParseItems(items: seq<string>): Result<seq<(string, string)>, Error> {
    ParseEach(ParseItem, items)
  }

  /** `[parse(x) for x in xs]` for a `parse` that may raise. */
  function ParseEach<T>(parse: string -> Result<T, Error>, xs: seq<string>): Result<seq<T>, Error> {
    if xs == [] then Success([])
    else
      match parse(xs[0])
      case Failure(e) => Failure(e)
      case Success(y) =>
        match ParseEach(parse, xs[1..])
        case Failure(e) => Failure(e)
        case Success(ys) => Success([y] + ys)
  }

  /** The items parse exactly when each of them does, and then the results are
      the items' results, in order. */
  lemma {:induction false} ParseEachPointwise<T>(parse: string -> Result<T, Error>, xs: seq<string>)
    ensures ParseEach(parse, xs).Success? <==> forall i :: 0 <= i < |xs| ==> parse(xs[i]).Success?
    ensures ParseEach(parse, xs).Success? ==>
      |ParseEach(parse, xs).value| == |xs| &&
      forall i :: 0 <= i < |xs| ==> ParseEach(parse, xs).value[i] == parse(xs[i]).value
  {
    if xs != [] {
      ParseEachPointwise(parse, xs[1..]);
      assert forall i :: 1 <= i < |xs| ==> xs[i] == xs[1..][i - 1];
    }
  }

  /** When the items do not all parse, the error is that of the first item
      that does not. */
  lemma {:induction false} ParseEachFirstFailure<T>(parse: string -> Result<T, Error>, xs: seq<string>)
    requires ParseEach(parse, xs).Failure?
    ensures exists i :: && 0 <= i < |xs|
                        && parse(xs[i]) == Failure(ParseEach(parse, xs).error)
                        && forall j :: 0 <= j < i ==> parse(xs[j]).Success?
  {
    var e := ParseEach(parse, xs).error;
    if parse(xs[0]).Failure? {
      assert parse(xs[0]) == Failure(e);
    } else {
      ParseEachFirstFailure(parse, xs[1..]);
      var i :| && 0 <= i < |xs[1..]|
               && parse(xs[1..][i]) == Failure(e)
               && forall j :: 0 <= j < i ==> parse(xs[1..][j]).Success?;
      assert parse(xs[i + 1]) == Failure(e);
      assert forall j :: 1 <= j < i + 1 ==> xs[j] == xs[1..][j - 1];
    }
  }

  /** The items of `get_parameters`: the text of `raw` after the first occurrence
      of `name` and before the second, stripped, without its first and last
      characters (the braces), split on `;`. */
  function ParameterItems(raw: string, name: string): Result<seq<string>, Error> {
    if name == [] then Failure(EmptySeparator)
    else
      var pieces := Split(raw, name);
      if |pieces| < 2 then Failure(MissingBody)
      else Success(Split(DropEnds(Strip(pieces[1])), ";"))
  }

  /** `Tag.get_parameters`: the dict comprehension over the parameter items. */
  function Parameters(raw: string, name: string): (r: Result<Dict<string>, Error>)
    ensures r.Failure? ==> r.error.EmptySeparator? || r.error.MissingBody? || r.error.MissingColon?
    ensures r.Success? ==> IsDict(r.value)
  {
    match ParameterItems(raw, name)
    case Failure(e) => Failure(e)
    case Success(items) =>
      match ParseItems(items)
      case Failure(e) =>
        ParseEachFirstFailure(ParseItem, items);
        Failure(e)
      case Success(pairs) =>
        UpdateIsDict([], pairs);
        Success(FromPairs(pairs))
  }

  /** The parameters are read from the piece of `raw` between the first and the
      second occurrence of its tag name: the piece starts right after the name,
      holds no occurrence of it, and ends at the next occurrence or at the end. */
  lemma ParametersBetweenNameOccurrences(raw: string)
    requires TagName(raw) != []
    ensures var name := TagName(raw);
      var pieces := Split(raw, name);
      var rest := raw[|name|..];
      && |pieces| >= 2
      && ParameterItems(raw, name) == Success(Split(DropEnds(Strip(pieces[1])), ";"))
      && |pieces[1]| <= |rest| && pieces[1] == rest[..|pieces[1]|]
      && !Occurs(pieces[1], name)
      && (|pieces[1]| == |rest| || OccursAt(rest, name, |pieces[1]|))
  {
    var name := TagName(raw);
    var rest := raw[|name|..];
    assert OccursAt(raw, name, 0);
    assert Find(raw, name) == Some(0);
    assert Split(raw, name) == [raw[..0]] + Split(rest, name);
    SplitPiecesAvoidSeparator(rest, name);
  }

  /** A dict built by `get_parameters` has one entry per distinct key, in the
      order the keys first occur among the items, and the value of a repeated
      key is that of its last item. */
  lemma ParametersLastValueWins(raw: string, name: string, items: seq<string>, pairs: seq<(string, string)>)
    requires ParameterItems(raw, name) == Success(items) && ParseItems(items) == Success(pairs)
    ensures Parameters(raw, name).Success?
    ensures IsDict(Parameters(raw, name).value)
    ensures Keys(Parameters(raw, name).value) == Dedup(Keys(pairs))
    ensures forall k :: Get(Parameters(raw, name).value, k) == LastValue(pairs, k)
  {
    assert Parameters(raw, name) == Success(FromPairs(pairs));
    FromPairsEntries(pairs);
  }

  /** `get_parameters` succeeds exactly when the tag name splits `raw` and every
      item holds a `:`. */
  lemma ParametersSucceed(raw: string, name: string)
    ensures Parameters(raw, name).Success? <==>
      ParameterItems(raw, name).Success? &&
      forall item :: item in ParameterItems(raw, name).value ==> ':' in Strip(item)
  {
    if ParameterItems(raw, name).Success? {
      var items := ParameterItems(raw, name).value;
      ParseEachPointwise(ParseItem, items);
      forall item | item in items
        ensures ParseItem(item).Success? <==> ':' in Strip(item)
      {
        ParseItemColons(item);
      }
    }
  }

  // ---------------------------------------------------------------------------
  // Tag.get_tagged_string

  /** `int(params[key])`: a missing key is a `KeyError`, a value that is not a
      decimal a `ValueError`. */
  function IntegerParameter(params: Dict<string>, key: string): Result<nat, Error> {
    match Get(params, key)
    case None => Failure(MissingParameter(key))
    case Some(v) =>
      match ParseInt(v)
      case None => Failure(NotAnInteger(v))
      case Some(n) => Success(n)
  }

  /** `int(params[key])` reads back a number written in decimal; a missing key
      is a `KeyError`. */
  lemma IntegerParameterReads(params: Dict<string>, key: string, n: nat)
    ensures Get(params, key) == Some(DecimalString(n)) ==> IntegerParameter(params, key) == Success(n)
    ensures key !in Keys(params) ==> IntegerParameter(params, key) == Failure(MissingParameter(key))
  {
    ParseIntOfDecimalString(n);
  }

  /** `Tag.get_tagged_string(text)`: `text[offset:offset + length]`, the
      parameters being parsed anew for each of the two lookups. */
  function TaggedString(raw: string, name: string, text: Option<string>): (r: Result<string, Error>)
    ensures r.Success? ==> text.Some? && |r.value| <= |text.value|
  {
    match Parameters(raw, name)
    case Failure(e) => Failure(e)
    case Success(params) => Window(params, text)
  }

  /** The tagged string once the parameters are known. */
  function Window(params: Dict<string>, text: Option<string>): Result<string, Error> {
    WindowOf(IntegerParameter(params, "offset"), IntegerParameter(params, "length"), text)
  }

  /** `text[offset:offset + length]` once `offset` and `length` are read. */
  function WindowOf(offset: Result<nat, Error>, length: Result<nat, Error>, text: Option<string>): Result<string, Error> {
    match offset
    case Failure(e) => Failure(e)
    case Success(o) =>
      match length
      case Failure(e) => Failure(e)
      case Success(n) =>
        match text
        case None => Failure(MissingText)
        case Some(t) => Success(Slice(t, o, o + n))
  }

  /** Once `offset` and `length` parse, the tagged string is the window of
      `length` characters at `offset`, shortened where the text ends and empty
      past its end; running over the end is not an error. */
  lemma WindowSlice(t: string, offset: nat, length: nat)
    ensures WindowOf(Success(offset), Success(length), Some(t)).Success?
    ensures var r := WindowOf(Success(offset), Success(length), Some(t)).value;
      && |r| == (if offset >= |t| then 0 else Min(length, |t| - offset))
      && |r| <= length
      && (offset <= |t| ==> r == t[offset..offset + |r|])
  {
  }

  /** The failures of `get_tagged_string`, in the order they are met: the
      parameters do not parse; `offset` is missing or not a decimal; `length`
      is missing or not a decimal; the line has no text. */
  lemma TaggedStringFailures(raw: string, name: string, text: Option<string>)
    ensures Parameters(raw, name).Failure? ==>
      TaggedString(raw, name, text) == Failure(Parameters(raw, name).error)
    ensures Parameters(raw, name).Success? ==>
      var params := Parameters(raw, name).value;
      var offset, length := IntegerParameter(params, "offset"), IntegerParameter(params, "length");
      && (offset.Failure? ==> TaggedString(raw, name, text) == Failure(offset.error))
      && (offset.Success? && length.Failure? ==> TaggedString(raw, name, text) == Failure(length.error))
      && (offset.Success? && length.Success? ==>
            (TaggedString(raw, name, text).Failure? <==> text.None?) &&
            (text.None? ==> TaggedString(raw, name, text) == Failure(MissingText)))
  {
  }
}
