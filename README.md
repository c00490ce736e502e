# Textual tags of Transkribus PAGE-XML documents, in Dafny

Transkribus stores each textual tag of a transcribed line inside the line's
`custom` attribute, for example

    readingOrder {index:0;} person {offset:0; length:4;} place {offset:8; length:4; continued:true;}

This project models the core of `transkribus_extract_textual_tags`:

- the tags of one line, and its reading order;
- the `Tag` object: its name, its parameters, its tagged string and its CSV row;
- the document-wide merge, where a tag marked `continued` absorbs the fragments after it;
- the aggregation of parameters per tag name, and the CSV header built from it;
- the earlier prototype of the same parsing in `main.py`.

It proves properties of that model.

The files:

- `wrappers.dfy` holds `Option` and `Result`.
- `py_str.dfy` models the Python string operations the source relies on:
  - `split`, `strip` and clamped slicing;
  - `int()` on a decimal string;
  - `re.search(r"\d+")`.
- `py_dict.dfy` models an insertion-ordered Python `dict`: lookup, assignment
  and `update`.
- `tag_parse.dfy` models the parsing of a `custom` attribute and of one raw tag.
  Each Python exception becomes an `Error` value:
  - `ValueError` from `int()` or an empty separator;
  - `IndexError` from a missing `[1]`;
  - `KeyError` from a missing parameter;
  - `TypeError` from slicing a missing text;
  - `AttributeError` from a line without a reading order or an unknown attribute.
- `tags.dfy` models `tag.py`:
  - `Line` and `Region` are values.
  - `Tag` is a class whose fields the merge updates in place.
  - The merge is specified twice: by a fold (`Merge`), and by what the fold
    produces (`Explains`). The imperative `Document.GetTags` is proved to
    produce exactly `Merge`.
- `utility.dfy` models `utility.py`: the aggregation loop and the header loop.
  Each is proved equal to a fold, and the folds are characterised by lemmas.
- `prototype.dfy` models the prototype classes of `main.py` and proves that
  they agree with `tag.py`. `Prototype.PrototypeAgrees` gathers these
  agreements for every tag of a line. It follows from the contracts of the
  prototype's members alone.

Behaviour of the code worth knowing, which the model follows:

- Tags are separated by `;}` (`Line.get_tags`, tag.py:117-120). The list of
  pieces is cut with `[1:-1]`:
  - The text before the first `;}` is never a tag: it holds the reading order.
  - The text after the last `;}` is never a tag either.
  - So a `custom` value with fewer than two `;}` yields no tags. An example is
    a value whose tags end in a bare `}`: splitting it on `;}` gives a single
    piece.
- The comment at tag.py:39 says that continued tags come in pairs. The
  docstring at tag.py:184-185 says that both tags of the pair have
  `continued` set to `true`. The code checks less than either:
  - A continuation is decided by the last kept tag alone. That tag must have a
    `continued` parameter, whatever its value, and the fragment must have the
    same tag name.
  - The fragment's own `continued` parameter is never read.
  - Continuation is not limited to pairs. The kept tag keeps absorbing every
    following fragment it takes, and each absorption overwrites the tag's
    continued tagged string.
  - So the continued tagged string is the tag's own tagged string, a space,
    and the tagged string of the LAST absorbed fragment only (`Tags.Absorbs`).
    The middle fragments of a chain of three are lost.
- An `IndexError` from the last tag's own parameters is swallowed, and the
  fragment is appended (tag.py:45-46). Any other error, such as a
  `ValueError` from `int()`, ends the merge.
- The CSV header's eight fixed columns are not de-duplicated against the
  parameter keys (`Utility.HeaderRepeatsFixedColumn`).

## Model

| member | source | states |
|---|---|---|
| Tags.Line.GetTags | transkribus_extract_textual_tags/tag.py:117-120 | one tag per piece of `custom` strictly between the first and the last `;}`; each tag is the stripped piece closed with `}`, named by its text before the first space; there are no tags exactly when `;}` occurs at most once; the prototype's `TextLine.get_tags` (`main.py`, lines 97-100) is the same code |
| Tags.Line.GetReadingOrder | transkribus_extract_textual_tags/tag.py:111-115 | the reading order fails (with `NoReadingOrder`) exactly when the text before the first `;}` has no digit; otherwise it is the decimal value of the leftmost maximal run of digits there; the prototype's `TextLine.get_reading_order` (`main.py`, lines 91-95) is the same code |
| Tags.Tag.constructor | transkribus_extract_textual_tags/tag.py:123-139 | a new tag holds its raw text and the given name, or the text before the first space when no name is given; every other field is unset |
| Tags.Tag.SetContinuedTaggedString | transkribus_extract_textual_tags/tag.py:180-190 | sets the continued tagged string and leaves every other field as it was |
| Tags.Tag.GetCsvRow | transkribus_extract_textual_tags/tag.py:158-178 | the row succeeds exactly when the first eight columns name attributes and, if there is a ninth column, the parameters parse; it then has one cell per column: the attribute value for the first eight, the parameter's value or `None` for the rest; on failure the error names the first of the first eight columns that is not an attribute, or, when there is none, it is the parameters' error |
| Tags.CsvRow | transkribus_extract_textual_tags/tag.py:158-178 | the same row, with the same failures, for given field values and a given `get_parameters()` outcome |
| Tags.AttributeFields | transkribus_extract_textual_tags/tag.py:166-170 | the loop over `header[:8]` gives each column's attribute value in order, and fails exactly when some column is not a data attribute, with an error naming the first such column |
| Tags.ParameterFields | transkribus_extract_textual_tags/tag.py:172-176 | the loop over `header[8:]` gives each column's value in the parameters, `None` for a missing key (the `KeyError` caught) |
| Tags.Attribute | transkribus_extract_textual_tags/tag.py:168 | `__getattribute__` succeeds exactly for the names of the nine data fields of a tag; any other name is an `UnknownAttribute` error naming it |
| Tags.Tag.GetParameters | transkribus_extract_textual_tags/tag.py:141-145 | a tag's parameters are a dict with each key once; they fail only with the `ValueError` of an empty name or an `IndexError` (no text after the name, or an item without `:`); characterised by TagParse.ParametersSucceed, TagParse.ParametersBetweenNameOccurrences and TagParse.ParametersLastValueWins |
| Tags.Tag.GetTaggedString | transkribus_extract_textual_tags/tag.py:147-156 | a tagged string exists only for a present text and is no longer than it; characterised by TagParse.TaggedStringFailures, TagParse.WindowSlice and TagParse.IntegerParameterReads |
| TagParse.TagName | transkribus_extract_textual_tags/tag.py:137-139 | the name is a prefix of the raw text, contains no space, and ends at a space or at the end of the raw text |
| TagParse.Interior | transkribus_extract_textual_tags/tag.py:120 | the fragments are the `split(";}")` pieces without the first and the last, each stripped and closed with `}` |
| TagParse.FragmentsNeedTwoDelimiters | transkribus_extract_textual_tags/tag.py:117-120 | a `custom` value has no fragments exactly when `;}` occurs in it at most once |
| TagParse.FragmentShape | transkribus_extract_textual_tags/tag.py:120 | every fragment is non-empty, ends with `}`, does not start with whitespace, and has a non-empty tag name |
| TagParse.ReadingOrderOfHead | transkribus_extract_textual_tags/tag.py:114-115 | appending `;}` to the head adds no digit: the search fails exactly when the head has no digit, and otherwise reads the head's leftmost digit run |
| TagParse.Parameters | transkribus_extract_textual_tags/tag.py:141-145 | the dict comprehension gives a dict with each key once, or fails with `EmptySeparator` (`ValueError`), `MissingBody` or `MissingColon` (`IndexError`) and nothing else; characterised by ParametersSucceed, ParametersBetweenNameOccurrences, ParametersLastValueWins and ParseItemColons |
| TagParse.ParseItemColons | transkribus_extract_textual_tags/tag.py:144-145 | one parameter item parses exactly when its stripped text has a `:`; the key is the text before the first `:`, the value the text between the first and the second; otherwise the error is `MissingColon` |
| TagParse.ParametersBetweenNameOccurrences | transkribus_extract_textual_tags/tag.py:144-145 | for a tag with a non-empty name, the parameter items are read from the piece of the raw text right after the name: the piece contains no occurrence of the name and ends at its next occurrence or at the end |
| TagParse.ParametersLastValueWins | transkribus_extract_textual_tags/tag.py:144-145 | the parameter dict has each key once, in first-occurrence order, and maps it to the value of its last item |
| TagParse.ParametersSucceed | transkribus_extract_textual_tags/tag.py:141-145 | the parameters parse exactly when the name splits the raw text and every item contains a `:` once stripped |
| TagParse.ParseEachPointwise | transkribus_extract_textual_tags/tag.py:144-145 | the dict comprehension succeeds exactly when every item parses, with the items' pairs in order |
| TagParse.ParseEachFirstFailure | transkribus_extract_textual_tags/tag.py:144-145 | when the comprehension fails, its error is that of the first item that does not parse |
| TagParse.IntegerParameterReads | transkribus_extract_textual_tags/tag.py:153-154 | a parameter holding the decimal string of `n` reads as `n`; a missing key is a `MissingParameter` error |
| TagParse.WindowSlice | transkribus_extract_textual_tags/tag.py:156 | `text[offset:offset+length]` is the part of that window inside the text, empty past the end and never an error |
| TagParse.TaggedStringFailures | transkribus_extract_textual_tags/tag.py:147-156 | the tagged string fails with the parameters' error first, then a missing or non-integer `offset`, then `length`, and then a missing text |
| TagParse.TaggedString | transkribus_extract_textual_tags/tag.py:147-156 | `text[offset:offset + length]` succeeds only on a present text and is never longer than it; characterised by TaggedStringFailures, WindowSlice and IntegerParameterReads |
| Tags.Merge | transkribus_extract_textual_tags/tag.py:34-55 | a successful merge returns at most one tag per fragment, and at least one when there is a fragment; characterised by Tags.MergeExplained, Tags.MergeTagsWellFormed and Tags.MergeFromConcat |
| Tags.MergeFromBounds | transkribus_extract_textual_tags/tag.py:34-53 | the loop succeeds only from a success, keeps at least the tags it starts with, adds at most one per fragment, and has a tag once it has seen a fragment |
| Tags.MergeStep | transkribus_extract_textual_tags/tag.py:37-53 | one turn either appends one tag and keeps the list before it, or absorbs the fragment, changing only the last tag's continued tagged string; characterised by Tags.MergeStepCases and Tags.AbsorbWithCases |
| Tags.MergeFromConcat | transkribus_extract_textual_tags/tag.py:34-53 | running the merge loop over `a + b` is running it over `a` and then over `b` |
| Tags.MergeFromFailure | transkribus_extract_textual_tags/tag.py:34-53 | once an error is raised, no later fragment changes the outcome |
| Tags.MergeFromFails | transkribus_extract_textual_tags/tag.py:34-55 | an error raised after some fragments is the outcome of the whole loop |
| Tags.AbsorbWithCases | transkribus_extract_textual_tags/tag.py:38-53 | one turn, once the last tag's parameters and both tagged strings are known: a non-`IndexError` from the parameters is raised; a `continued` key and a matching name absorb; anything else appends |
| Tags.OwnTaggedStringError | transkribus_extract_textual_tags/tag.py:41-46 | once a tag's parameters parse, its tagged string raises no `IndexError`, so the `except IndexError` never hides it |
| Tags.MergeStepCases | transkribus_extract_textual_tags/tag.py:38-53 | the first fragment is appended; after that, a non-`IndexError` from the last tag's parameters is raised, the fragment is absorbed exactly when the last tag takes it, and appended otherwise, the `except IndexError` making no other difference |
| Tags.ExplainsAppend | transkribus_extract_textual_tags/tag.py:47-53 | appending a fragment that the last tag does not take keeps every tag's account of the fragments it was made from and absorbed |
| Tags.ExplainsAbsorb | transkribus_extract_textual_tags/tag.py:40-44 | absorbing a fragment leaves the earlier tags alone and sets the last tag's continued tagged string to its own tagged string, a space and the fragment's |
| Tags.ExplainsStep | transkribus_extract_textual_tags/tag.py:37-53 | each successful turn of the loop preserves the account of which fragment made each tag and which fragments it absorbed |
| Tags.MergeExplained | transkribus_extract_textual_tags/tag.py:31-55 | a successful merge keeps, in document order, the first fragment and every fragment the tag before it did not take; each kept tag carries its fragment's raw text, name, tagged string, region and line; it absorbed exactly the fragments up to the next kept one, and its continued tagged string joins its tagged string to the last of them |
| Tags.MergeTagsWellFormed | transkribus_extract_textual_tags/tag.py:31-55 | a successful merge returns at most one tag per fragment and at least one when there is a fragment; every tag is named by its raw text and has a tagged string, which is what its parameters give on its own line's text |
| Tags.MergeFragment | transkribus_extract_textual_tags/tag.py:38-53 | one turn on tag objects has the outcome of the fold's step on the tags' fields; the tags it returns are the old ones or new ones |
| Tags.MergeTurn | transkribus_extract_textual_tags/tag.py:37-53 | one turn extends the fold over the fragments done so far by the fragment |
| Tags.TryAbsorbFragment | transkribus_extract_textual_tags/tag.py:38-46 | the `try` block absorbs exactly when the fold's absorb step does, changing only the last tag's continued tagged string; it changes nothing when it falls through or raises |
| Tags.AppendFragment | transkribus_extract_textual_tags/tag.py:47-53 | the append keeps the old tags and adds one new tag carrying the fragment's fields, or raises the error of its tagged string |
| Tags.Append | transkribus_extract_textual_tags/tag.py:47-53 | the list gains the fragment's tag at its end with the fragment's region, line and tagged string |
| Tags.ContinueLast | transkribus_extract_textual_tags/tag.py:43 | only the last tag's continued tagged string changes |
| Tags.Record | transkribus_extract_textual_tags/tag.py:47-52 | the new tag holds the fragment's tagged string, region id, line id, line text and points |
| Tags.MergeLine | transkribus_extract_textual_tags/tag.py:37-53 | the loop over one line's tags has the outcome of the fold over that line's fragments |
| Tags.MergeRegion | transkribus_extract_textual_tags/tag.py:36-53 | the loop over one region's lines has the outcome of the fold over that region's fragments |
| Tags.Document.GetTags | transkribus_extract_textual_tags/tag.py:31-55 | the tags returned, or the error raised, are those of the fold over all fragments of all regions in document order; every returned tag is a new object |
| Utility.GetAggregated | transkribus_extract_textual_tags/utility.py:13-26 | the loop computes the per-name fold: the first tag of a name stores its parameters, and each later one updates them |
| Utility.Aggregated | transkribus_extract_textual_tags/utility.py:19-24 | the aggregate has at most one entry per tag, and is empty exactly when there are no tags; characterised by Utility.AggregatedKeys, Utility.AggregatedGet and Utility.AggregatedValue |
| Utility.AggregatedKeys | transkribus_extract_textual_tags/utility.py:19-24 | the aggregate is a dict whose keys are the tag names, each once, in order of first appearance |
| Utility.AggregatedGet | transkribus_extract_textual_tags/utility.py:20-24 | a name's entry is the dict built from the parameters of all tags of that name, in order; a name of no tag has no entry |
| Utility.AggregatedValue | transkribus_extract_textual_tags/utility.py:22-24 | a name's entry has the keys of all its tags' parameters, each once in first-occurrence order, and the value from the last tag that has the key |
| Utility.StepGet | transkribus_extract_textual_tags/utility.py:21-24 | one iteration adds the tag's parameters to its own name's entry, creating it when absent, and leaves every other name's entry as it was |
| Utility.GetCsvHeader | transkribus_extract_textual_tags/utility.py:29-48 | the header is the eight fixed columns followed by the keys of the union of all aggregated parameter dicts |
| Utility.Union | transkribus_extract_textual_tags/utility.py:35-37 | the merged parameters are a dict with each key once; characterised by Utility.UnionKeys, Utility.UnionKeysOrder and Utility.HeaderColumns |
| Utility.UnionKeys | transkribus_extract_textual_tags/utility.py:35-48 | the union's keys are distinct, and they are exactly the parameter keys of all entries, in first-occurrence order |
| Utility.UnionKeysOrder | transkribus_extract_textual_tags/utility.py:35-37 | of two parameter columns, the one whose key occurs first among the aggregated parameters comes first |
| Utility.HeaderColumns | transkribus_extract_textual_tags/utility.py:39-48 | the header has eight fixed columns, then one column per distinct parameter key, in first-occurrence order |
| Utility.AggregateKeyFromTag | transkribus_extract_textual_tags/utility.py:19-24 | every key of a name's dict in the aggregate is a parameter key of some tag |
| Utility.TagKeyInAggregate | transkribus_extract_textual_tags/utility.py:19-24 | every parameter key of a tag is a key of some dict in the aggregate |
| Utility.HeaderCoversParameters | transkribus_extract_textual_tags/utility.py:13-48 | after aggregating a list of tags, a key is a parameter column of the header exactly when some tag has that parameter |
| Utility.HeaderOfNothing | transkribus_extract_textual_tags/utility.py:35-48 | with no tags the header is the eight fixed columns |
| Utility.HeaderRepeatsFixedColumn | transkribus_extract_textual_tags/utility.py:48 | for every aggregate, a parameter key named like a fixed column is listed again among the parameter columns, after the eight fixed columns |
| Prototype.Tag.GetName | transkribus_extract_textual_tags/main.py:109-112 | the prototype's name is the one `tag.py` gives a tag without a name: a prefix of the raw text without spaces ending at a space or the end |
| Prototype.Tag.GetParameters | transkribus_extract_textual_tags/main.py:114-117 | the prototype's parameters are those `tag.py` gives the same raw text |
| Prototype.Tag.GetTaggedString | transkribus_extract_textual_tags/main.py:119-128 | the prototype's tagged string is the one `tag.py` gives the same raw text on the same text |
| Prototype.LineTags | transkribus_extract_textual_tags/main.py:97-100 | the prototype's line gives the same number of tags as `tag.py`'s, each with the same raw text and name |
| Prototype.PrototypeAgrees | transkribus_extract_textual_tags/main.py:97-128 | for every tag of a line, the prototype and `tag.py` agree on raw text, name, parameters and tagged string |
| PyStr.SplitJoin | transkribus_extract_textual_tags/tag.py:120 | joining the `split` pieces with the separator gives back the string |
| PyStr.SplitPiecesAvoidSeparator | transkribus_extract_textual_tags/tag.py:144-145 | no `split` piece contains the separator |
| PyStr.StripTrims | transkribus_extract_textual_tags/tag.py:120 | `strip` removes only whitespace, and only from the two ends |
| PyStr.ParseIntOfDecimalString | transkribus_extract_textual_tags/tag.py:153-154 | `int()` reads back the decimal string of every natural number |
| PyStr.SearchDigitsLeftmost | transkribus_extract_textual_tags/tag.py:114 | the digit search finds nothing exactly when there is no digit, and otherwise the leftmost maximal run of digits |
| PyStr.SearchDigitsIgnoresSuffix | transkribus_extract_textual_tags/tag.py:115 | a suffix without digits does not change what the digit search finds |
| PyDict.PutGet | transkribus_extract_textual_tags/utility.py:24 | after `d[k] = v`, `k` gives `v` and every other key gives what it gave before |
| PyDict.UpdateGet | transkribus_extract_textual_tags/utility.py:22 | after `d.update(e)`, a key of `e` gives its last value in `e`, and any other key gives what it gave in `d` |
| PyDict.UpdateKeys | transkribus_extract_textual_tags/utility.py:37 | `d.update(e)` keeps `d`'s keys in place and adds `e`'s new keys after them, in first-occurrence order |
| PyDict.FromPairsEntries | transkribus_extract_textual_tags/tag.py:144-145 | a dict built from pairs has each key once, in first-occurrence order, and the value of the key's last pair |

## Left out

- XML: parsing with `lxml`, the `findall` searches and the element getters are not modelled. A document is a sequence of regions, each holding its lines, each holding its attributes and texts as values.
- Nested regions: `findall(".//TextRegion")` also finds nested regions, whose lines `.//TextLine` would then yield twice. The model merges whatever sequence of regions it is given.
- I/O: `client.py`, `Utility.write_csv` and the `main()` script of `main.py` only read files, write files or print, and are not modelled.
- TagParse.IntegerParameter: Python's `int()` also accepts a sign, `_` between digits and non-ASCII decimal digits. The model reads ASCII digits with surrounding whitespace and an optional `+`. A negative offset, which Python would slice from the end, is a `NotAnInteger` error in the model.
- PyStr.SearchDigits: Python's `\d` also matches non-ASCII decimal digits. The model matches ASCII digits only.
- Tags.Line.GetTags: returns the field values of the new tags, not tag objects. `Document.GetTags` builds its own tag objects from the same raw texts.
- Tags.Attribute: `__getattribute__` also returns methods and class attributes, for example `get_parameters`. The model treats any name other than the nine data fields as an `UnknownAttribute` error.
- Tags.Tag.GetCsvRow: evaluates `get_parameters()` once rather than once per parameter column. It is deterministic, so the cells are the same.
- Tags.Tag: `tagged_string` is a class attribute without an annotation, so it is not a dataclass field. The model holds it as a field of each tag; `tag.py` only reads it after assigning it on the instance.
- Utility.GetAggregated: `utility.py` imports a module `tags` that does not exist, and calls `get_name()`, which `tag.py`'s `Tag` lacks. The model aggregates over pairs of a tag name and its already parsed parameters. A `get_parameters()` error raised inside the loop is therefore not modelled.
- Utility.GetCsvHeader: takes the aggregate as a sequence of pairs of a name and a dict, in the aggregate's insertion order.
