/** `utility.py`: the parameters of the tags aggregated per tag name, and the
    CSV header derived from them. */
module Utility {
  import opened Wrappers
  import opened PyDict

  /** A tag as the aggregation sees it: its name and its parameters. */
  type Entry = (string, Dict<string>)

  /** The names of the tags, in order. */
  function Names(tags: seq<Entry>): (r: seq<string>)
    ensures |r| == |tags|
  {
    if tags == [] then [] else Names(tags[..|tags| - 1]) + [tags[|tags| - 1].0]
  }

  /** The parameter items of the tags named `name`, tag after tag. */
  function ItemsOf(tags: seq<Entry>, name: string): seq<(string, string)> {
    if tags == [] then []
    else
      var last := tags[|tags| - 1];
      ItemsOf(tags[..|tags| - 1], name) + (if last.0 == name then last.1 else [])
  }

  /** The loop of `Utility.get_aggregated` over `tags`: a name seen before has
      its dict updated in place with the tag's parameters; a new name is
      added with the tag's parameters. */
  function Aggregated(tags: seq<Entry>): (r: Dict<Dict<string>>)
    ensures |r| <= |tags|
    ensures r == [] <==> tags == []
  {
    if tags == [] then []
    else
      var acc := Aggregated(tags[..|tags| - 1]);
      var (name, params) := tags[|tags| - 1];
      match Get(acc, name)
      case Some(d) => Put(acc, name, Update(d, params))
      case None => Put(acc, name, params)
  }

  /** `Utility.get_aggregated(tags)` */
  method GetAggregated(tags: seq<Entry>) returns (aggregated: Dict<Dict<string>>)
    ensures aggregated == Aggregated(tags)
  {
    aggregated := [];
    for i := 0 to |tags|
      invariant aggregated == Aggregated(tags[..i])
    {
      assert tags[..i + 1][..i] == tags[..i];
      var (name, params) := tags[i];
      match Get(aggregated, name)
      case Some(d) =>
        aggregated := Put(aggregated, name, Update(d, params));
      case None =>
        aggregated := Put(aggregated, name, params);
    }
    assert tags[..|tags|] == tags;
  }

  /** A name none of whose tags is in `tags` has no items there. */
  lemma {:induction false} ItemsOfAbsent(tags: seq<Entry>, name: string)
    requires name !in Names(tags)
    ensures ItemsOf(tags, name) == []
  {
    if tags != [] {
      ItemsOfAbsent(tags[..|tags| - 1], name);
    }
  }

  /** The value stored under the last tag's name by the last step. */
  function StepValue(acc: Dict<Dict<string>>, tag: Entry): Dict<string> {
    match Get(acc, tag.0)
    case Some(d) => Update(d, tag.1)
    case None => tag.1
  }

  lemma AggregatedStep(tags: seq<Entry>)
    requires tags != []
    ensures var acc := Aggregated(tags[..|tags| - 1]);
      Aggregated(tags) == Put(acc, tags[|tags| - 1].0, StepValue(acc, tags[|tags| - 1]))
  {
  }

  /** The aggregate has one entry per distinct tag name, in the order the names
      first occur. */
  lemma {:induction false} AggregatedKeys(tags: seq<Entry>)
    ensures IsDict(Aggregated(tags))
    ensures Keys(Aggregated(tags)) == Dedup(Names(tags))
  {
    if tags != [] {
      var p := tags[..|tags| - 1];
      var acc := Aggregated(p);
      AggregatedKeys(p);
      AggregatedStep(tags);
      PutIsDict(acc, tags[|tags| - 1].0, StepValue(acc, tags[|tags| - 1]));
    }
  }

  /** The dict of a name is the dict comprehension over the parameter items of
      all its tags in order: its keys are the union of their keys in
      first-occurrence order, and each value is that of the last tag with the
      key. */
  lemma {:induction false} AggregatedGet(tags: seq<Entry>, name: string)
    requires forall i :: 0 <= i < |tags| ==> IsDict(tags[i].1)
    ensures Get(Aggregated(tags), name)
      == if name in Names(tags) then Some(FromPairs(ItemsOf(tags, name))) else None
  {
    if tags == [] {
      assert Names(tags) == [];
    } else {
      var p := tags[..|tags| - 1];
      var last := tags[|tags| - 1];
      AggregatedGet(p, name);
      AggregatedStep(tags);
      if name !in Names(p) {
        ItemsOfAbsent(p, name);
      }
      StepGet(Aggregated(p), last, name, name in Names(p), ItemsOf(p, name));
    }
  }

  /** The dict of a name that occurs: its keys are the parameter keys of its
      tags, each once, in the order they first occur, tag after tag (`update`
      never moves a key already there), and each key holds the value of the
      last of those tags that has it. */
  lemma AggregatedValue(tags: seq<Entry>, name: string)
    requires forall i :: 0 <= i < |tags| ==> IsDict(tags[i].1)
    requires name in Names(tags)
    ensures Get(Aggregated(tags), name).Some?
    ensures var d := Get(Aggregated(tags), name).value;
      && IsDict(d)
      && Keys(d) == Dedup(Keys(ItemsOf(tags, name)))
      && forall k :: Get(d, k) == LastValue(ItemsOf(tags, name), k)
  {
    AggregatedGet(tags, name);
    FromPairsEntries(ItemsOf(tags, name));
  }

  /** One step of the loop, for one name: `seen` says whether a tag of that
      name came before and `items` are their parameter items. */
  lemma StepGet(acc: Dict<Dict<string>>, tag: Entry, name: string, seen: bool, items: seq<(string, string)>)
    requires Get(acc, name) == if seen then Some(FromPairs(items)) else None
    requires !seen ==> items == []
    requires IsDict(tag.1)
    ensures Get(Put(acc, tag.0, StepValue(acc, tag)), name)
      == if seen || tag.0 == name then Some(FromPairs(items + (if tag.0 == name then tag.1 else []))) else None
  {
    PutGet(acc, tag.0, StepValue(acc, tag), name);
    if tag.0 != name {
      assert items + [] == items;
    } else if seen {
      UpdateConcat([], items, tag.1);
    } else {
      UpdateEmpty(tag.1);
      assert items + tag.1 == tag.1;
    }
  }

  // ---------------------------------------------------------------------------
  // Utility.get_csv_header

  /** The first eight columns of the header: attributes of a tag. */
  const FixedColumns: seq<string> := [
    "tag_name", "tagged_string", "continued_tagged_string", "text_region_id",
    "text_line_text", "text_line_id", "text_line_coords_points", "text_line_baseline_points"]

  /** The items of every dict of the aggregate, dict after dict. */
  function AllItems(aggregated: Dict<Dict<string>>): seq<(string, string)> {
    if aggregated == [] then []
    else AllItems(aggregated[..|aggregated| - 1]) + aggregated[|aggregated| - 1].1
  }

  /** The loop of `Utility.get_csv_header`: one dict updated with each dict of
      the aggregate in turn. */
  function Union(aggregated: Dict<Dict<string>>): (r: Dict<string>)
    ensures IsDict(r)
  {
    if aggregated == [] then []
    else
      var acc := Union(aggregated[..|aggregated| - 1]);
      UpdateIsDict(acc, aggregated[|aggregated| - 1].1);
      Update(acc, aggregated[|aggregated| - 1].1)
  }

  /** `Utility.get_csv_header(aggregated)` */
  method GetCsvHeader(aggregated: Dict<Dict<string>>) returns (header: seq<string>)
    ensures header == FixedColumns + Keys(Union(aggregated))
  {
    var parameters: Dict<string> := [];
    for i := 0 to |aggregated|
      invariant parameters == Union(aggregated[..i])
    {
      assert aggregated[..i + 1][..i] == aggregated[..i];
      parameters := Update(parameters, aggregated[i].1);
    }
    assert aggregated[..|aggregated|] == aggregated;
    header := FixedColumns + Keys(parameters);
  }

  lemma {:induction false} UnionItems(aggregated: Dict<Dict<string>>)
    ensures Union(aggregated) == Update([], AllItems(aggregated))
  {
    if aggregated != [] {
      var p := aggregated[..|aggregated| - 1];
      UnionItems(p);
      UpdateConcat([], AllItems(p), aggregated[|aggregated| - 1].1);
    }
  }

  /** The keys gathered from the aggregate: every parameter key of every dict,
      each once, in the order of first occurrence, scanning the dicts in order
      and the keys of each in order. */
  lemma UnionKeys(aggregated: Dict<Dict<string>>)
    ensures Keys(Union(aggregated)) == Dedup(Keys(AllItems(aggregated)))
    ensures Distinct(Keys(Union(aggregated)))
    ensures forall k :: k in Keys(Union(aggregated)) <==> k in Keys(AllItems(aggregated))
  {
    UnionItems(aggregated);
    UpdateKeys([], AllItems(aggregated));
    assert Keys<string>([]) == [];
    DedupOntoDistinct([], Keys(AllItems(aggregated)));
    DedupOntoElements([], Keys(AllItems(aggregated)));
  }

  /** The gathered keys are ordered by where they first occur among the items
      of the aggregate. */
  lemma UnionKeysOrder(aggregated: Dict<Dict<string>>)
    ensures forall k :: k in Keys(Union(aggregated)) ==> k in Keys(AllItems(aggregated))
    ensures var keys := Keys(Union(aggregated));
      forall i, j :: 0 <= i < j < |keys| ==>
        FirstIndex(Keys(AllItems(aggregated)), keys[i]) < FirstIndex(Keys(AllItems(aggregated)), keys[j])
  {
    UnionKeys(aggregated);
    DedupFirstOccurrenceOrder(Keys(AllItems(aggregated)));
  }

  /** The header is the eight fixed columns followed by the gathered keys. */
  lemma HeaderColumns(aggregated: Dict<Dict<string>>)
    ensures var header := FixedColumns + Keys(Union(aggregated));
      && |header| == 8 + |Dedup(Keys(AllItems(aggregated)))|
      && header[..8] == FixedColumns
      && header[8..] == Dedup(Keys(AllItems(aggregated)))
  {
    UnionKeys(aggregated);
    var header := FixedColumns + Keys(Union(aggregated));
    assert header[8..] == Keys(Union(aggregated));
  }

  /** A key is gathered from the aggregate exactly when some dict of it has
      the key. */
  lemma {:induction false} AllItemsKeys(aggregated: Dict<Dict<string>>, k: string)
    ensures k in Keys(AllItems(aggregated))
      <==> exists j :: 0 <= j < |aggregated| && k in Keys(aggregated[j].1)
  {
    if aggregated != [] {
      var p := aggregated[..|aggregated| - 1];
      AllItemsKeys(p, k);
      KeysConcat(AllItems(p), aggregated[|aggregated| - 1].1);
      if k in Keys(AllItems(p)) {
        var j :| 0 <= j < |p| && k in Keys(p[j].1);
        assert aggregated[j] == p[j];
      }
      if j :| 0 <= j < |aggregated| && k in Keys(aggregated[j].1) {
        if j < |p| {
          assert aggregated[j] == p[j];
        }
      }
    }
  }

  /** A key is among the items of a name exactly when a tag of that name has
      it as a parameter. */
  lemma {:induction false} ItemsOfKeys(tags: seq<Entry>, name: string, k: string)
    ensures k in Keys(ItemsOf(tags, name))
      <==> exists i :: 0 <= i < |tags| && tags[i].0 == name && k in Keys(tags[i].1)
  {
    if tags != [] {
      var p := tags[..|tags| - 1];
      var last := tags[|tags| - 1];
      ItemsOfKeys(p, name, k);
      KeysConcat(ItemsOf(p, name), if last.0 == name then last.1 else []);
      assert Keys<string>([]) == [];
      if k in Keys(ItemsOf(p, name)) {
        var i :| 0 <= i < |p| && p[i].0 == name && k in Keys(p[i].1);
        assert tags[i] == p[i];
      }
      if i :| 0 <= i < |tags| && tags[i].0 == name && k in Keys(tags[i].1) {
        if i < |p| {
          assert tags[i] == p[i];
        }
      }
    }
  }

  /** The name of every tag is among the names. */
  lemma {:induction false} NamesHave(tags: seq<Entry>, i: nat)
    requires i < |tags|
    ensures tags[i].0 in Names(tags)
  {
    if i < |tags| - 1 {
      NamesHave(tags[..|tags| - 1], i);
    }
  }

  /** A key of a dict of the aggregate is a parameter key of some tag. */
  lemma AggregateKeyFromTag(tags: seq<Entry>, j: nat, k: string)
    requires forall i :: 0 <= i < |tags| ==> IsDict(tags[i].1)
    requires j < |Aggregated(tags)| && k in Keys(Aggregated(tags)[j].1)
    ensures exists i :: 0 <= i < |tags| && k in Keys(tags[i].1)
  {
    var aggregated := Aggregated(tags);
    var name := aggregated[j].0;
    AggregatedKeys(tags);
    assert Keys(aggregated)[j] == name;
    DedupOntoElements([], Names(tags));
    AggregatedGet(tags, name);
    GetStored(aggregated, name, j);
    FromPairsEntries(ItemsOf(tags, name));
    DedupOntoElements([], Keys(ItemsOf(tags, name)));
    ItemsOfKeys(tags, name, k);
  }

  /** A parameter key of a tag is a key of the dict of its name in the
      aggregate. */
  lemma TagKeyInAggregate(tags: seq<Entry>, i: nat, k: string)
    requires forall i :: 0 <= i < |tags| ==> IsDict(tags[i].1)
    requires i < |tags| && k in Keys(tags[i].1)
    ensures exists j :: 0 <= j < |Aggregated(tags)| && k in Keys(Aggregated(tags)[j].1)
  {
    var aggregated := Aggregated(tags);
    var name := tags[i].0;
    AggregatedKeys(tags);
    NamesHave(tags, i);
    AggregatedGet(tags, name);
    var v := Get(aggregated, name).value;
    var j :| 0 <= j < |aggregated| && aggregated[j] == (name, v);
    FromPairsEntries(ItemsOf(tags, name));
    DedupOntoElements([], Keys(ItemsOf(tags, name)));
    ItemsOfKeys(tags, name, k);
    assert k in Keys(aggregated[j].1);
  }

  /** The header built from the aggregate of `tags` has a column for every
      parameter key of every tag, and for nothing else. */
  lemma HeaderCoversParameters(tags: seq<Entry>, k: string)
    requires forall i :: 0 <= i < |tags| ==> IsDict(tags[i].1)
    ensures k in Keys(Union(Aggregated(tags)))
      <==> exists i :: 0 <= i < |tags| && k in Keys(tags[i].1)
  {
    var aggregated := Aggregated(tags);
    UnionKeys(aggregated);
    AllItemsKeys(aggregated, k);
    if j :| 0 <= j < |aggregated| && k in Keys(aggregated[j].1) {
      AggregateKeyFromTag(tags, j, k);
    }
    if i :| 0 <= i < |tags| && k in Keys(tags[i].1) {
      TagKeyInAggregate(tags, i, k);
    }
  }

  /** With nothing aggregated the header is the eight fixed columns. */
  lemma HeaderOfNothing()
    ensures FixedColumns + Keys(Union([])) == FixedColumns
  {
  }

  /** The fixed columns are not de-duplicated against the parameter keys: a
      parameter named like a fixed column, such as `tag_name`, is a column
      of its own after the fixed ones as well. */
  lemma HeaderRepeatsFixedColumn(aggregated: Dict<Dict<string>>, k: string)
    requires k in FixedColumns && k in Keys(AllItems(aggregated))
    ensures var header := FixedColumns + Keys(Union(aggregated));
      header[..8] == FixedColumns && k in header[8..]
  {
    HeaderColumns(aggregated);
    DedupOntoElements([], Keys(AllItems(aggregated)));
  }
}
