/**
 Response flattening. The weather service answers with an XML tree whose
 top-level children are one element per station (or per text); the library
 turns each into a flat dictionary:

 - observations and descriptive texts: start from the element's attributes,
   then every child sets the key of its tag to its text (`""` when the text is
   missing or empty), later children overwriting earlier ones;
 - forecasts: the same, except that the key `"forecast"` starts as an empty
   list and every child tagged `forecast` appends one dictionary (built the
   same way from the forecast's own children, without its attributes).

 Fetching and parsing the XML are not modelled: the parsed tree is an input.
 Each loop over children is modelled as a recursion on the children seen so
 far: the state after the last child is the state after all the others,
 updated by the last one.
 */
module Flatten {
  import opened Wrappers

  /** A parsed XML element: tag, attributes, text (absent when the element
      has none), and children in document order. */
  datatype Element = Element(tag: string, attrib: map<string, string>, text: Option<string>, children: seq<Element>)

  /** Python's `node.text or ""`. */
  function TextOf(e: Element): string {
    match e.text
    case None => ""
    case Some(t) => t
  }

  /** The tags occurring among `cs`. */
  function TagsOf(cs: seq<Element>): set<string> {
    set i | 0 <= i < |cs| :: cs[i].tag
  }

  /** No child after position `i` carries the same tag as `cs[i]`. */
  predicate IsLastOfTag(cs: seq<Element>, i: int)
    requires 0 <= i < |cs|
  {
    forall j | i < j < |cs| :: cs[j].tag != cs[i].tag
  }

  /** `m` is the dictionary made from the initial entries `init` by setting,
      child after child, each child's tag to its text: its keys are the
      initial keys and the tags; a tag maps to the text of its last child; an
      initial key that no child overwrites keeps its value. */
  ghost predicate IsFlattening(m: map<string, string>, init: map<string, string>, cs: seq<Element>) {
    && m.Keys == init.Keys + TagsOf(cs)
    && (forall i | 0 <= i < |cs| && IsLastOfTag(cs, i) :: cs[i].tag in m && m[cs[i].tag] == TextOf(cs[i]))
    && (forall k | k in init && k !in TagsOf(cs) :: k in m && m[k] == init[k])
  }

  /** The inner loop `for node in station: d[node.tag] = node.text or ""`,
      starting from the dictionary `init`. */
  function FlattenFields(init: map<string, string>, cs: seq<Element>): (r: map<string, string>)
    ensures IsFlattening(r, init, cs)
  {
    if |cs| == 0 then init
    else
      var prefix := cs[..|cs| - 1];
      var last := cs[|cs| - 1];
      var m := FlattenFields(init, prefix);
      FlatteningStep(m, init, cs);
      m[last.tag := TextOf(last)]
  }

  /** Splitting off the last child: the tags of `cs` are those of the other
      children plus the last one's, and a child that is last of its tag in
      `cs`, with a tag other than the last child's, is last of its tag among
      the others. */
  lemma LastChildSplit(cs: seq<Element>)
    requires |cs| > 0
    ensures TagsOf(cs) == TagsOf(cs[..|cs| - 1]) + {cs[|cs| - 1].tag}
    ensures forall i | 0 <= i < |cs| - 1 && IsLastOfTag(cs, i) && cs[i].tag != cs[|cs| - 1].tag ::
      IsLastOfTag(cs[..|cs| - 1], i)
  {
  }

  /** One iteration of the inner loop keeps `IsFlattening`. */
  lemma FlatteningStep(m: map<string, string>, init: map<string, string>, cs: seq<Element>)
    requires |cs| > 0
    requires IsFlattening(m, init, cs[..|cs| - 1])
    ensures IsFlattening(m[cs[|cs| - 1].tag := TextOf(cs[|cs| - 1])], init, cs)
  {
    var prefix := cs[..|cs| - 1];
    var last := cs[|cs| - 1];
    var m' := m[last.tag := TextOf(last)];
    LastChildSplit(cs);
    forall i | 0 <= i < |cs| && IsLastOfTag(cs, i)
      ensures cs[i].tag in m' && m'[cs[i].tag] == TextOf(cs[i])
    {
      if cs[i].tag != last.tag {
        assert prefix[i] == cs[i];
      }
    }
  }

  /** Every tag of `cs` has a last child carrying it, so an `IsFlattening`
      dictionary fixes the value of every key. */
  lemma {:induction false} LastOfTagExists(cs: seq<Element>, k: string)
    requires k in TagsOf(cs)
    ensures exists i | 0 <= i < |cs| :: cs[i].tag == k && IsLastOfTag(cs, i)
  {
    var i :| 0 <= i < |cs| && cs[i].tag == k;
    if !IsLastOfTag(cs, i) {
      var j :| i < j < |cs| && cs[j].tag == k;
      assert cs[j..][0].tag == k;
      assert k in TagsOf(cs[j + 1..]) || IsLastOfTag(cs, j) by {
        if !IsLastOfTag(cs, j) {
          var l :| j < l < |cs| && cs[l].tag == k;
          assert cs[j + 1..][l - j - 1] == cs[l];
        }
      }
      if IsLastOfTag(cs, j) {
      } else {
        LastOfTagExists(cs[j + 1..], k);
        var l :| 0 <= l < |cs[j + 1..]| && cs[j + 1..][l].tag == k && IsLastOfTag(cs[j + 1..], l);
        assert cs[j + 1 + l] == cs[j + 1..][l];
        assert IsLastOfTag(cs, j + 1 + l) by {
          forall q | j + 1 + l < q < |cs|
            ensures cs[q].tag != k
          {
            assert cs[j + 1..][q - j - 1] == cs[q];
          }
        }
      }
    }
  }

  /** `IsFlattening` describes exactly one dictionary, so it is a complete
      specification of the loop. */
  lemma FlatteningIsUnique(m1: map<string, string>, m2: map<string, string>, init: map<string, string>, cs: seq<Element>)
    requires IsFlattening(m1, init, cs) && IsFlattening(m2, init, cs)
    ensures m1 == m2
  {
    forall k | k in m1
      ensures m1[k] == m2[k]
    {
      if k in TagsOf(cs) {
        LastOfTagExists(cs, k);
      }
    }
  }

  /** One station (or text) element flattened: its attributes, then its children. */
  function FlattenRecord(e: Element): (r: map<string, string>)
    ensures IsFlattening(r, e.attrib, e.children)
  {
    FlattenFields(e.attrib, e.children)
  }

  /** The result list of `observation_for_stations` and of `forecast_text`:
      one dictionary per top-level element, in document order. */
  function FlattenRecords(tree: Element): (r: seq<map<string, string>>)
    ensures |r| == |tree.children|
    ensures forall i | 0 <= i < |r| :: IsFlattening(r[i], tree.children[i].attrib, tree.children[i].children)
  {
    seq(|tree.children|, i requires 0 <= i < |tree.children| => FlattenRecord(tree.children[i]))
  }

  /** A value of a forecast dictionary: a text, or the list of forecasts. */
  datatype Value = Text(s: string) | Forecasts(items: seq<map<string, string>>)

  /** The key under which forecast entries are collected. */
  const ForecastKey: string := "forecast"

  /** The children tagged `forecast`, in document order. */
  function ForecastChildren(cs: seq<Element>): (r: seq<Element>)
    ensures |r| <= |cs|
    ensures forall j | 0 <= j < |r| :: r[j].tag == ForecastKey
  {
    if |cs| == 0 then []
    else
      var rest := ForecastChildren(cs[..|cs| - 1]);
      if cs[|cs| - 1].tag == ForecastKey then rest + [cs[|cs| - 1]] else rest
  }

  /** The attributes as text values. */
  function TextValues(attrib: map<string, string>): (r: map<string, Value>)
    ensures r.Keys == attrib.Keys
    ensures forall k | k in attrib :: r[k] == Text(attrib[k])
  {
    map k | k in attrib :: Text(attrib[k])
  }

  /** `m` is the forecast dictionary of an element with attributes `attrib`
      and children `cs`: `"forecast"` holds one flattened dictionary per
      `forecast` child, in order, and is never a text; every other tag holds
      the text of its last child; attributes that no child overwrites keep
      their value; there are no other keys. */
  ghost predicate IsForecastFlattening(m: map<string, Value>, attrib: map<string, string>, cs: seq<Element>) {
    && m.Keys == attrib.Keys + TagsOf(cs) + {ForecastKey}
    && HoldsForecastList(m, cs)
    && HoldsLastTexts(m, cs)
    && KeepsAttributes(m, attrib, cs)
  }

  /** `"forecast"` is a list with one flattened dictionary per `forecast`
      child, in order. */
  ghost predicate HoldsForecastList(m: map<string, Value>, cs: seq<Element>) {
    && ForecastKey in m
    && m[ForecastKey].Forecasts?
    && |m[ForecastKey].items| == |ForecastChildren(cs)|
    && (forall j | 0 <= j < |ForecastChildren(cs)| ::
          IsFlattening(m[ForecastKey].items[j], map[], ForecastChildren(cs)[j].children))
  }

  /** Every tag other than `forecast` holds the text of its last child. */
  ghost predicate HoldsLastTexts(m: map<string, Value>, cs: seq<Element>) {
    forall i | 0 <= i < |cs| && IsLastOfTag(cs, i) && cs[i].tag != ForecastKey ::
      cs[i].tag in m && m[cs[i].tag] == Text(TextOf(cs[i]))
  }

  /** Attributes that no child overwrites keep their value, as text. */
  ghost predicate KeepsAttributes(m: map<string, Value>, attrib: map<string, string>, cs: seq<Element>) {
    forall k | k in attrib && k !in TagsOf(cs) && k != ForecastKey :: k in m && m[k] == Text(attrib[k])
  }

  /** The loop of `forecast_for_stations` over one station's children,
      starting from `{**attrib, "forecast": []}`. */
  function ForecastFields(attrib: map<string, string>, cs: seq<Element>): (r: map<string, Value>)
    ensures IsForecastFlattening(r, attrib, cs)
  {
    if |cs| == 0 then TextValues(attrib)[ForecastKey := Forecasts([])]
    else
      var prefix := cs[..|cs| - 1];
      var last := cs[|cs| - 1];
      var m := ForecastFields(attrib, prefix);
      if last.tag == ForecastKey then
        ForecastStepOnForecast(m, attrib, cs);
        m[ForecastKey := Forecasts(m[ForecastKey].items + [FlattenFields(map[], last.children)])]
      else
        ForecastStepOnOther(m, attrib, cs);
        m[last.tag := Text(TextOf(last))]
  }

  /** One iteration of the forecast loop on a child tagged `forecast`
      appends its flattened children to the forecast list and keeps
      `IsForecastFlattening`. */
  lemma ForecastStepOnForecast(m: map<string, Value>, attrib: map<string, string>, cs: seq<Element>)
    requires |cs| > 0 && cs[|cs| - 1].tag == ForecastKey
    requires IsForecastFlattening(m, attrib, cs[..|cs| - 1])
    ensures IsForecastFlattening(
      m[ForecastKey := Forecasts(m[ForecastKey].items + [FlattenFields(map[], cs[|cs| - 1].children)])],
      attrib, cs)
  {
    var v := Forecasts(m[ForecastKey].items + [FlattenFields(map[], cs[|cs| - 1].children)]);
    LastChildSplit(cs);
    ForecastAppends(m, cs);
    UpdateKeepsAttributes(m, attrib, cs, v);
    ForecastKeepsLastTexts(m, cs, v);
  }

  /** One iteration of the forecast loop on any other child sets its tag to
      its text and keeps `IsForecastFlattening`. */
  lemma ForecastStepOnOther(m: map<string, Value>, attrib: map<string, string>, cs: seq<Element>)
    requires |cs| > 0 && cs[|cs| - 1].tag != ForecastKey
    requires IsForecastFlattening(m, attrib, cs[..|cs| - 1])
    ensures IsForecastFlattening(m[cs[|cs| - 1].tag := Text(TextOf(cs[|cs| - 1]))], attrib, cs)
  {
    LastChildSplit(cs);
    OtherKeepsForecastList(m, cs);
    UpdateKeepsAttributes(m, attrib, cs, Text(TextOf(cs[|cs| - 1])));
    OtherSetsLastText(m, cs);
  }

  /** A `forecast` child appends its flattening to the forecast list. */
  lemma ForecastAppends(m: map<string, Value>, cs: seq<Element>)
    requires |cs| > 0 && cs[|cs| - 1].tag == ForecastKey
    requires HoldsForecastList(m, cs[..|cs| - 1])
    ensures HoldsForecastList(
      m[ForecastKey := Forecasts(m[ForecastKey].items + [FlattenFields(map[], cs[|cs| - 1].children)])], cs)
  {
  }

  /** Any other child leaves the forecast list alone. */
  lemma OtherKeepsForecastList(m: map<string, Value>, cs: seq<Element>)
    requires |cs| > 0 && cs[|cs| - 1].tag != ForecastKey
    requires HoldsForecastList(m, cs[..|cs| - 1])
    ensures HoldsForecastList(m[cs[|cs| - 1].tag := Text(TextOf(cs[|cs| - 1]))], cs)
  {
  }

  /** Writing the last child's tag leaves the attributes no child overwrites alone. */
  lemma UpdateKeepsAttributes(m: map<string, Value>, attrib: map<string, string>, cs: seq<Element>, v: Value)
    requires |cs| > 0
    requires TagsOf(cs) == TagsOf(cs[..|cs| - 1]) + {cs[|cs| - 1].tag}
    requires KeepsAttributes(m, attrib, cs[..|cs| - 1])
    ensures KeepsAttributes(m[cs[|cs| - 1].tag := v], attrib, cs)
  {
  }

  /** A `forecast` child leaves the other tags' texts alone. */
  lemma ForecastKeepsLastTexts(m: map<string, Value>, cs: seq<Element>, v: Value)
    requires |cs| > 0 && cs[|cs| - 1].tag == ForecastKey
    requires forall i | 0 <= i < |cs| - 1 && IsLastOfTag(cs, i) && cs[i].tag != cs[|cs| - 1].tag ::
      IsLastOfTag(cs[..|cs| - 1], i)
    requires HoldsLastTexts(m, cs[..|cs| - 1])
    ensures HoldsLastTexts(m[ForecastKey := v], cs)
  {
  }

  /** Any other child sets its tag to its text. */
  lemma OtherSetsLastText(m: map<string, Value>, cs: seq<Element>)
    requires |cs| > 0
    requires forall i | 0 <= i < |cs| - 1 && IsLastOfTag(cs, i) && cs[i].tag != cs[|cs| - 1].tag ::
      IsLastOfTag(cs[..|cs| - 1], i)
    requires HoldsLastTexts(m, cs[..|cs| - 1])
    ensures HoldsLastTexts(m[cs[|cs| - 1].tag := Text(TextOf(cs[|cs| - 1]))], cs)
  {
  }

  /** One station element of a forecast answer, flattened. */
  function ForecastRecord(e: Element): (r: map<string, Value>)
    ensures IsForecastFlattening(r, e.attrib, e.children)
  {
    ForecastFields(e.attrib, e.children)
  }

  /** The result list of `forecast_for_stations`: one forecast dictionary per
      top-level element, in document order. */
  function ForecastRecords(tree: Element): (r: seq<map<string, Value>>)
    ensures |r| == |tree.children|
    ensures forall i | 0 <= i < |r| :: IsForecastFlattening(r[i], tree.children[i].attrib, tree.children[i].children)
  {
    seq(|tree.children|, i requires 0 <= i < |tree.children| => ForecastRecord(tree.children[i]))
  }

  /** `IsForecastFlattening` describes exactly one dictionary. */
  lemma ForecastFlatteningIsUnique(m1: map<string, Value>, m2: map<string, Value>, attrib: map<string, string>, cs: seq<Element>)
    requires IsForecastFlattening(m1, attrib, cs) && IsForecastFlattening(m2, attrib, cs)
    ensures m1 == m2
  {
    var fc := ForecastChildren(cs);
    var items1, items2 := m1[ForecastKey].items, m2[ForecastKey].items;
    forall j | 0 <= j < |fc|
      ensures items1[j] == items2[j]
    {
      FlatteningIsUnique(items1[j], items2[j], map[], fc[j].children);
    }
    assert items1 == items2;
    forall k | k in m1
      ensures m1[k] == m2[k]
    {
      if k != ForecastKey && k in TagsOf(cs) {
        LastOfTagExists(cs, k);
      }
    }
  }
}
