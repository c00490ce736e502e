/** `main.py`: the earlier prototype of the parser. Its `TextLine` computes
    `get_tags` and `get_reading_order` with the very expressions of `tag.py`
    (so `Tags.Line` models both), and its `Tag` keeps only the raw text,
    recomputing the tag name whenever it is needed. */
module Prototype {
  import opened Wrappers
  import opened PyStr
  import opened PyDict
  import opened TagParse
  import opened Tags

  /** The prototype `Tag`: a dataclass holding `raw` and nothing else. */
  datatype Tag = Tag(raw: string)
  {
    /** `Tag.get_name`: the text of `raw` before its first space, the name
        `tag.py` gives a tag built without one. */
    function GetName(): (name: string)
      ensures name == NewTag(raw).tagName
      ensures ' ' !in name && |name| <= |raw| && name == raw[..|name|]
      ensures |name| == |raw| || raw[|name|] == ' '
    {
      Split(raw, " ")[0]
    }

    /** `Tag.get_parameters`: `raw` split on `get_name()`, read as `tag.py`
        reads it. */
    function GetParameters(): (r: Result<Dict<string>, Error>)
      ensures r == Parameters(raw, NewTag(raw).tagName)
    {
      Parameters(raw, GetName())
    }

    /** `Tag.get_tagged_string(text)`, the text being always there. */
    function GetTaggedString(text: string): (r: Result<string, Error>)
      ensures r == TaggedString(raw, NewTag(raw).tagName, Some(text))
    {
      TaggedString(raw, GetName(), Some(text))
    }
  }

  /** `TextLine.get_tags`: the same fragments as `Line.get_tags`, each wrapped
      in a prototype tag. */
  function LineTags(line: Line): (r: seq<Tag>)
    ensures |r| == |line.GetTags()|
    ensures forall i :: 0 <= i < |r| ==> line.GetTags()[i] == NewTag(r[i].raw)
  {
    var raws := Fragments(line.custom);
    seq(|raws|, i requires 0 <= i < |raws| => Tag(raws[i]))
  }

  /** A prototype tag and the `tag.py` tag built from the same fragment without
      an explicit name agree on the name, the parameters and, for a line that
      has a text, the tagged string. */
  lemma PrototypeAgrees(line: Line, i: nat)
    requires i < |line.GetTags()|
    ensures var p, t := LineTags(line)[i], line.GetTags()[i];
      && p.raw == t.raw
      && p.GetName() == t.tagName
      && p.GetParameters() == Parameters(t.raw, t.tagName)
      && (line.text.Some? ==> p.GetTaggedString(line.text.value) == TaggedString(t.raw, t.tagName, line.text))
  {
  }
}
