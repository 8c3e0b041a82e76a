/** The DOT attribute hooks of nodes and edges: rendering an attribute map as
    a key-sorted list with quoted labels, and the entry flag carried by the
    node label "entry". */
module DotAttrs {
  import opened Wrappers
  import opened Strings
  import opened Sorting
  import opened Cfg

  datatype Attribute = Attribute(key: string, value: string)

  function KeysOf(rs: seq<Attribute>): (ks: seq<string>)
    ensures |ks| == |rs| && forall i :: 0 <= i < |rs| ==> ks[i] == rs[i].key
  {
    seq(|rs|, i requires 0 <= i < |rs| => rs[i].key)
  }

  ghost predicate DistinctKeys(rs: seq<Attribute>) {
    forall i, j :: 0 <= i < j < |rs| ==> rs[i].key != rs[j].key
  }

  // ---------------------------------------------------------------------------
  // Rendering

  /** A label containing a space and not already starting with a double
      quote is quoted on output. */
  predicate NeedsQuote(key: string, value: string) {
    key == "label" && ' ' in value && !(|value| > 0 && value[0] == '"')
  }

  function RenderValue(key: string, value: string): (r: string)
    ensures !NeedsQuote(key, r)
    ensures !NeedsQuote(key, value) ==> r == value
  {
    if NeedsQuote(key, value) then Quote(value) else value
  }

  /** A quoted label unquotes to the original text. */
  lemma RenderValueUnquotes(key: string, value: string)
    requires NeedsQuote(key, value)
    ensures Unquote(RenderValue(key, value)) == Some(value)
  {
    QuoteRoundTrip(value);
  }

  /** The map a reader of the rendered attributes would store. */
  function Rendered(a: Attrs): (b: Attrs)
    ensures b.Keys == a.Keys
  {
    map k | k in a :: RenderValue(k, a[k])
  }

  /** The keys of a map, sorted in byte order. */
  ghost function SortedKeys(a: Attrs): (ks: seq<string>)
    ensures |ks| == |a|
    ensures forall k :: k in ks <==> k in a
  {
    var es := Elements(a.Keys);
    var ks := SortBy(es, Chars);
    SortByPerm(es, Chars);
    assert |ks| == |multiset(ks)| == |multiset(es)| == |es|;
    assert forall k :: k in ks <==> k in multiset(ks);
    assert forall k :: k in es <==> k in multiset(es);
    ks
  }

  /** The sorted keys are strictly ascending, each key once. */
  lemma SortedKeysAscending(a: Attrs)
    ensures forall i, j :: 0 <= i < j < |SortedKeys(a)| ==> StrLess(SortedKeys(a)[i], SortedKeys(a)[j])
  {
    var es := Elements(a.Keys);
    var ks := SortBy(es, Chars);
    SortByPerm(es, Chars);
    assert ks == SortedKeys(a);
    SortBySorted(es, Chars);
    ElementsDistinct(a.Keys);
    DistinctByMultiset(es, ks);
    forall i, j | 0 <= i < j < |ks|
      ensures Chars(ks[i]) != Chars(ks[j])
    {
      if Chars(ks[i]) == Chars(ks[j]) {
        CharsInjective(ks[i], ks[j]);
      }
    }
    SortedDistinctIsStrict(ks, Chars);
  }

  function RenderAll(a: Attrs, ks: seq<string>): (r: seq<Attribute>)
    requires forall k :: k in ks ==> k in a
    ensures |r| == |ks|
    ensures forall i :: 0 <= i < |r| ==> r[i] == Attribute(ks[i], RenderValue(ks[i], a[ks[i]]))
    decreases |ks|
  {
    if ks == [] then [] else [Attribute(ks[0], RenderValue(ks[0], a[ks[0]]))] + RenderAll(a, ks[1..])
  }

  /** The attribute list of a node or edge: every key once, in ascending
      order, with its value rendered. */
  ghost function Attributes(a: Attrs): (r: seq<Attribute>)
    ensures KeysOf(r) == SortedKeys(a)
    ensures forall i :: 0 <= i < |r| ==> r[i].key in a && r[i].value == RenderValue(r[i].key, a[r[i].key])
  {
    var ks := SortedKeys(a);
    RenderAllKeys(a, ks);
    RenderAllValues(a, ks);
    RenderAll(a, ks)
  }

  lemma RenderAllValues(a: Attrs, ks: seq<string>)
    requires forall k :: k in ks ==> k in a
    ensures forall i :: 0 <= i < |RenderAll(a, ks)| ==>
      RenderAll(a, ks)[i].key in a && RenderAll(a, ks)[i].value == RenderValue(RenderAll(a, ks)[i].key, a[RenderAll(a, ks)[i].key])
  {
    var r := RenderAll(a, ks);
    forall i | 0 <= i < |r|
      ensures r[i].key in a && r[i].value == RenderValue(r[i].key, a[r[i].key])
    {
      assert r[i].key == ks[i] && ks[i] in ks;
    }
  }

  lemma RenderAllKeys(a: Attrs, ks: seq<string>)
    requires forall k :: k in ks ==> k in a
    ensures KeysOf(RenderAll(a, ks)) == ks
  {
    var r := RenderAll(a, ks);
    assert forall i :: 0 <= i < |ks| ==> KeysOf(r)[i] == ks[i];
  }

  lemma AttributesKeys(a: Attrs)
    ensures |Attributes(a)| == |a|
    ensures forall k :: k in KeysOf(Attributes(a)) <==> k in a
    ensures forall i, j :: 0 <= i < j < |Attributes(a)| ==> StrLess(Attributes(a)[i].key, Attributes(a)[j].key)
    ensures DistinctKeys(Attributes(a))
  {
    var r := Attributes(a);
    assert |r| == |KeysOf(r)|;
    SortedKeysAscending(a);
    forall i, j | 0 <= i < j < |r|
      ensures StrLess(r[i].key, r[j].key) && r[i].key != r[j].key
    {
      assert r[i].key == KeysOf(r)[i] && r[j].key == KeysOf(r)[j];
      StrLessTotal(r[i].key, r[j].key);
    }
  }

  lemma AttributesDistinct(a: Attrs)
    ensures DistinctKeys(Attributes(a))
  {
    AttributesKeys(a);
  }

  /** Rendering is idempotent: rendering what a reader stored gives the same
      attribute list. */
  lemma AttributesRendered(a: Attrs)
    ensures Attributes(Rendered(a)) == Attributes(a)
  {
    var b := Rendered(a);
    SameKeysSorted(a, b);
    RenderAllRendered(a, SortedKeys(a));
  }

  lemma SameKeysSorted(a: Attrs, b: Attrs)
    requires a.Keys == b.Keys
    ensures SortedKeys(a) == SortedKeys(b)
  {
  }

  /** Rendering the values of a rendered map changes nothing. */
  lemma {:induction false} RenderAllRendered(a: Attrs, ks: seq<string>)
    requires forall k :: k in ks ==> k in a
    ensures RenderAll(Rendered(a), ks) == RenderAll(a, ks)
    decreases |ks|
  {
    if ks != [] {
      RenderAllRendered(a, ks[1..]);
    }
  }

  // ---------------------------------------------------------------------------
  // Reading attributes back

  predicate IsEntryLabel(attr: Attribute) {
    attr.key == "label" && attr.value == "entry"
  }

  /** Storing an attribute read for an edge. */
  function SetEdgeAttribute(a: Attrs, attr: Attribute): (b: Attrs)
    ensures b.Keys == a.Keys + {attr.key} && b[attr.key] == attr.value
    ensures forall k :: k in a && k != attr.key ==> b[k] == a[k]
  {
    a[attr.key := attr.value]
  }

  function SetEdgeAttributes(a: Attrs, rs: seq<Attribute>): Attrs
    decreases |rs|
  {
    if rs == [] then a else SetEdgeAttributes(SetEdgeAttribute(a, rs[0]), rs[1..])
  }

  /** Storing an attribute read for a node: the label "entry" sets the entry
      flag instead of being stored, and conflicts with any other label. */
  function SetNodeAttribute(n: Node, attr: Attribute): (r: Result<Node>)
    ensures r.Err? <==> IsEntryLabel(attr) && "label" in n.attrs && n.attrs["label"] != "entry"
    ensures r.Err? ==> r.error == InvalidLabel
    ensures r.Ok? && IsEntryLabel(attr) ==> r.value == n.(entry := true)
    ensures r.Ok? && !IsEntryLabel(attr) ==> r.value == n.(attrs := n.attrs[attr.key := attr.value])
  {
    if attr.key == "label" && attr.value == "entry" then
      if "label" in n.attrs && n.attrs["label"] != "entry" then Err(InvalidLabel)
      else Ok(n.(entry := true))
    else
      Ok(n.(attrs := n.attrs[attr.key := attr.value]))
  }

  function SetNodeAttributes(n: Node, rs: seq<Attribute>): Result<Node>
    decreases |rs|
  {
    if rs == [] then Ok(n)
    else
      var n' :- SetNodeAttribute(n, rs[0]);
      SetNodeAttributes(n', rs[1..])
  }

  /** The attributes a node renders; an entry node gets the label "entry",
      which is also stored in its attribute map, and fails when it already
      carries a different label. */
  ghost function NodeAttributes(n: Node): (r: Result<(Node, seq<Attribute>)>)
    ensures r.Err? <==> n.entry && "label" in n.attrs && n.attrs["label"] != "entry"
    ensures r.Err? ==> r.error == InvalidLabel
    ensures r.Ok? && n.entry ==> r.value.0 == n.(attrs := n.attrs["label" := "entry"])
    ensures r.Ok? && !n.entry ==> r.value.0 == n
    ensures r.Ok? ==> r.value.1 == Attributes(r.value.0.attrs)
    ensures r.Ok? && n.entry ==> Attribute("label", "entry") in r.value.1
  {
    if n.entry then
      if "label" in n.attrs && n.attrs["label"] != "entry" then Err(InvalidLabel)
      else
        var n' := n.(attrs := n.attrs["label" := "entry"]);
        var rs := Attributes(n'.attrs);
        EntryLabelListed(n'.attrs);
        Ok((n', rs))
    else Ok((n, Attributes(n.attrs)))
  }

  lemma EntryLabelListed(a: Attrs)
    requires "label" in a && a["label"] == "entry"
    ensures Attribute("label", "entry") in Attributes(a)
  {
    var i := KeyPosition(a, "label");
    EntryUnquoted();
    assert Attributes(a)[i] == Attribute("label", "entry");
  }

  /** The entry label is rendered as it is. */
  lemma EntryUnquoted()
    ensures RenderValue("label", "entry") == "entry"
  {
    var e := "entry";
    assert e == ['e', 'n', 't', 'r', 'y'];
    assert ' ' !in e;
  }

  /** Where a key of the map sits in its attribute list. */
  lemma KeyPosition(a: Attrs, k: string) returns (i: nat)
    requires k in a
    ensures i < |Attributes(a)| && Attributes(a)[i].key == k
  {
    var ks := KeysOf(Attributes(a));
    assert k in ks;
    i :| i < |ks| && ks[i] == k;
  }

  /** Attributes of a distinct-keyed list, as a map, leaving out the entry
      label when `skipEntry` holds. */
  ghost function PairsMap(rs: seq<Attribute>, skipEntry: bool): Attrs
    decreases |rs|
  {
    if rs == [] then map[]
    else
      var head: Attrs := if skipEntry then Contribution(rs[0]) else map[rs[0].key := rs[0].value];
      head + PairsMap(rs[1..], skipEntry)
  }

  /** Every listed pair but a skipped entry label is in the map. */
  lemma {:induction false} PairsMapHas(rs: seq<Attribute>, skipEntry: bool)
    requires DistinctKeys(rs)
    ensures forall i :: 0 <= i < |rs| && !(skipEntry && IsEntryLabel(rs[i])) ==>
      rs[i].key in PairsMap(rs, skipEntry) && PairsMap(rs, skipEntry)[rs[i].key] == rs[i].value
    decreases |rs|
  {
    if rs != [] {
      PairsMapHas(rs[1..], skipEntry);
      forall i | 0 < i < |rs|
        ensures rs[i] == rs[1..][i - 1] && rs[i].key != rs[0].key
      {
      }
      PairsMapKeys(rs[1..], skipEntry);
      if rs[0].key in PairsMap(rs[1..], skipEntry) {
        var j :| 0 <= j < |rs[1..]| && KeysOf(rs[1..])[j] == rs[0].key;
        assert rs[j + 1].key == rs[0].key;
      }
    }
  }

  /** The map holds only listed keys. */
  lemma {:induction false} PairsMapKeys(rs: seq<Attribute>, skipEntry: bool)
    ensures forall k :: k in PairsMap(rs, skipEntry) ==> k in KeysOf(rs)
    decreases |rs|
  {
    if rs != [] {
      PairsMapKeys(rs[1..], skipEntry);
      forall k | k in PairsMap(rs[1..], skipEntry)
        ensures k in KeysOf(rs)
      {
        var j :| 0 <= j < |rs[1..]| && KeysOf(rs[1..])[j] == k;
        assert KeysOf(rs)[j + 1] == k;
      }
    }
  }

  /** A skipped entry label leaves no label in the map. */
  lemma {:induction false} PairsMapSkips(rs: seq<Attribute>, skipEntry: bool)
    requires DistinctKeys(rs)
    ensures forall i :: 0 <= i < |rs| && skipEntry && IsEntryLabel(rs[i]) ==> "label" !in PairsMap(rs, skipEntry)
    decreases |rs|
  {
    if rs != [] {
      PairsMapSkips(rs[1..], skipEntry);
      forall i | 0 < i < |rs|
        ensures rs[i] == rs[1..][i - 1] && rs[i].key != rs[0].key
      {
      }
      PairsMapKeys(rs[1..], skipEntry);
      if skipEntry && IsEntryLabel(rs[0]) {
        forall k | k in PairsMap(rs[1..], skipEntry)
          ensures k != rs[0].key
        {
          var j :| 0 <= j < |rs[1..]| && KeysOf(rs[1..])[j] == k;
          assert rs[j + 1].key == k;
        }
      }
    }
  }

  lemma {:induction false} SetEdgeAttributesSpec(a: Attrs, rs: seq<Attribute>)
    ensures SetEdgeAttributes(a, rs) == a + PairsMap(rs, false)
    decreases |rs|
  {
    if rs != [] {
      SetEdgeAttributesSpec(SetEdgeAttribute(a, rs[0]), rs[1..]);
      UpdateUnion(a, rs[0].key, rs[0].value, PairsMap(rs[1..], false));
    }
  }

  lemma UpdateUnion(a: Attrs, k: string, v: string, p: Attrs)
    ensures a[k := v] + p == a + (map[k := v] + p)
  {
    var l, r := a[k := v] + p, a + (map[k := v] + p);
    assert forall x :: x in l.Keys <==> x in r.Keys;
    assert forall x :: x in l ==> l[x] == r[x];
  }

  ghost predicate HasEntryLabel(rs: seq<Attribute>) {
    exists i :: 0 <= i < |rs| && IsEntryLabel(rs[i])
  }

  lemma HasEntryLabelCons(rs: seq<Attribute>)
    requires rs != []
    ensures HasEntryLabel(rs) <==> IsEntryLabel(rs[0]) || HasEntryLabel(rs[1..])
  {
    if HasEntryLabel(rs) && !IsEntryLabel(rs[0]) {
      var i :| 0 <= i < |rs| && IsEntryLabel(rs[i]);
      assert IsEntryLabel(rs[1..][i - 1]);
    }
    if HasEntryLabel(rs[1..]) {
      var i :| 0 <= i < |rs[1..]| && IsEntryLabel(rs[1..][i]);
      assert IsEntryLabel(rs[i + 1]);
    }
  }

  lemma {:induction false} SetNodeAttributesSpec(n: Node, rs: seq<Attribute>)
    requires DistinctKeys(rs)
    requires forall i :: 0 <= i < |rs| ==> rs[i].key !in n.attrs
    ensures SetNodeAttributes(n, rs).Ok?
    ensures SetNodeAttributes(n, rs).value
      == n.(attrs := n.attrs + PairsMap(rs, true), entry := n.entry || HasEntryLabel(rs))
    decreases |rs|
  {
    if rs != [] {
      SetNodeAttributeFresh(n, rs[0]);
      var n' := SetNodeAttribute(n, rs[0]).value;
      forall i | 0 <= i < |rs[1..]|
        ensures rs[1..][i].key !in n'.attrs
      {
        assert rs[1..][i] == rs[i + 1];
        assert rs[i + 1].key != rs[0].key;
      }
      SetNodeAttributesSpec(n', rs[1..]);
      HasEntryLabelCons(rs);
      MapUnionAssoc(n.attrs, Contribution(rs[0]), PairsMap(rs[1..], true));
    }
  }

  /** What one attribute adds to a node's map when the entry label is not
      stored. */
  function Contribution(attr: Attribute): Attrs {
    if IsEntryLabel(attr) then map[] else map[attr.key := attr.value]
  }

  lemma SetNodeAttributeFresh(n: Node, attr: Attribute)
    requires attr.key !in n.attrs
    ensures SetNodeAttribute(n, attr) == Ok(n.(attrs := n.attrs + Contribution(attr), entry := n.entry || IsEntryLabel(attr)))
  {
    if IsEntryLabel(attr) {
      UnionEmpty(n.attrs);
    } else {
      UpdateIsUnion(n.attrs, attr.key, attr.value);
    }
  }

  lemma UnionEmpty(m: Attrs)
    ensures m + map[] == m
  {
  }

  lemma UpdateIsUnion(m: Attrs, k: string, v: string)
    ensures m[k := v] == m + map[k := v]
  {
    var l, r := m[k := v], m + map[k := v];
    assert forall x :: x in l.Keys <==> x in r.Keys;
    assert forall x :: x in l ==> l[x] == r[x];
  }

  lemma MapUnionAssoc(a: Attrs, b: Attrs, c: Attrs)
    ensures (a + b) + c == a + (b + c)
  {
  }

  /** A rendered value equals "entry" only when the value was "entry". */
  lemma RenderedEntry(key: string, v: string)
    ensures RenderValue(key, v) == "entry" <==> v == "entry"
  {
    if NeedsQuote(key, v) {
      assert RenderValue(key, v)[0] == '"';
    }
  }

  /** Every key of the rendered list is found in the map built from it. */
  lemma PairsMapCovers(a: Attrs, skipEntry: bool, k: string)
    requires k in a && !(skipEntry && k == "label" && a[k] == "entry")
    ensures k in PairsMap(Attributes(a), skipEntry)
    ensures PairsMap(Attributes(a), skipEntry)[k] == RenderValue(k, a[k])
  {
    var rs := Attributes(a);
    AttributesDistinct(a);
    PairsMapHas(rs, skipEntry);
    var i := KeyPosition(a, k);
    RenderedEntry(k, a[k]);
    assert !(skipEntry && IsEntryLabel(rs[i]));
  }

  /** The map built from the rendered list holds only keys of the map. */
  lemma PairsMapWithin(a: Attrs, skipEntry: bool, k: string)
    requires k in PairsMap(Attributes(a), skipEntry)
    ensures k in a && !(skipEntry && k == "label" && a[k] == "entry")
  {
    var rs := Attributes(a);
    AttributesDistinct(a);
    PairsMapKeys(rs, skipEntry);
    PairsMapSkips(rs, skipEntry);
    var i :| 0 <= i < |rs| && KeysOf(rs)[i] == k;
    assert rs[i].key == k && k in a;
    EntryUnquoted();
    assert k == "label" && a[k] == "entry" ==> IsEntryLabel(rs[i]);
  }

  /** The map built from a rendered list is the rendered map, less the entry
      label when that is skipped. */
  lemma PairsMapOfAttributes(a: Attrs, skipEntry: bool)
    ensures skipEntry && "label" in a && a["label"] == "entry" ==>
      PairsMap(Attributes(a), skipEntry) == Rendered(a) - {"label"}
    ensures !(skipEntry && "label" in a && a["label"] == "entry") ==>
      PairsMap(Attributes(a), skipEntry) == Rendered(a)
  {
    var r := Rendered(a);
    if skipEntry && "label" in a && a["label"] == "entry" {
      var want := r - {"label"};
      assert forall k :: k in want <==> k in a && k != "label";
      PairsMapEquals(a, skipEntry, want);
    } else {
      PairsMapEquals(a, skipEntry, r);
    }
  }

  lemma PairsMapEquals(a: Attrs, skipEntry: bool, want: Attrs)
    requires forall k :: k in want <==> k in a && !(skipEntry && k == "label" && a[k] == "entry")
    requires forall k :: k in want ==> want[k] == RenderValue(k, a[k])
    ensures PairsMap(Attributes(a), skipEntry) == want
  {
    var p := PairsMap(Attributes(a), skipEntry);
    forall k | k in p
      ensures k in want
    {
      PairsMapWithin(a, skipEntry, k);
    }
    forall k | k in want
      ensures k in p && p[k] == want[k]
    {
      PairsMapCovers(a, skipEntry, k);
    }
    SameEntries(p, want);
  }


  /** Reading back the attributes rendered for an edge stores the rendered
      map, which renders to the same list again. */
  lemma EdgeAttributesRoundTrip(a: Attrs)
    ensures SetEdgeAttributes(map[], Attributes(a)) == Rendered(a)
    ensures Attributes(SetEdgeAttributes(map[], Attributes(a))) == Attributes(a)
  {
    EdgeReadBack(a);
    AttributesRendered(a);
  }

  lemma EdgeReadBack(a: Attrs)
    ensures SetEdgeAttributes(map[], Attributes(a)) == Rendered(a)
  {
    SetEdgeAttributesSpec(map[], Attributes(a));
    PairsMapOfAttributes(a, false);
    EmptyUnion(Rendered(a));
  }

  lemma EmptyUnion(m: Attrs)
    ensures map[] + m == m
  {
  }

  lemma HasEntryLabelOfAttributes(a: Attrs)
    ensures HasEntryLabel(Attributes(a)) <==> "label" in a && a["label"] == "entry"
  {
    var rs := Attributes(a);
    if "label" in a && a["label"] == "entry" {
      EntryLabelListed(a);
    }
    if HasEntryLabel(rs) {
      var i :| 0 <= i < |rs| && IsEntryLabel(rs[i]);
      RenderedEntry("label", a["label"]);
    }
  }

  /** What reading a node's rendered attributes into a blank node stores. */
  lemma BlankReadBack(blank: Node, rs: seq<Attribute>)
    requires blank.attrs == map[] && !blank.entry
    requires DistinctKeys(rs)
    ensures SetNodeAttributes(blank, rs) == Ok(blank.(attrs := PairsMap(rs, true), entry := HasEntryLabel(rs)))
  {
    SetNodeAttributesSpec(blank, rs);
    SameEntries(map[] + PairsMap(rs, true), PairsMap(rs, true));
  }

  lemma NodeReadBack(n: Node, a: Attrs)
    requires !n.entry ==> !("label" in a && a["label"] == "entry")
    requires n.entry ==> "label" in a && a["label"] == "entry"
    ensures SetNodeAttributes(n.(entry := false, attrs := map[]), Attributes(a))
      == Ok(n.(attrs := if n.entry then Rendered(a) - {"label"} else Rendered(a)))
  {
    AttributesKeys(a);
    BlankReadBack(n.(entry := false, attrs := map[]), Attributes(a));
    HasEntryLabelOfAttributes(a);
    PairsMapOfAttributes(a, true);
  }

  /** Reading back the attributes rendered for a node into a blank node
      restores its entry flag and renders to the same list again, provided
      a node that is not the entry does not carry the label "entry". */
  lemma NodeAttributesRoundTrip(n: Node)
    requires NodeAttributes(n).Ok?
    requires !n.entry ==> !("label" in n.attrs && n.attrs["label"] == "entry")
    ensures var rs := NodeAttributes(n).value.1;
            var back := SetNodeAttributes(n.(entry := false, attrs := map[]), rs);
            && back.Ok?
            && back.value.entry == n.entry
            && NodeAttributes(back.value).Ok?
            && NodeAttributes(back.value).value.1 == rs
  {
    var a := NodeAttributes(n).value.0.attrs;
    NodeReadBack(n, a);
    var back := SetNodeAttributes(n.(entry := false, attrs := map[]), Attributes(a)).value;
    var stored := NodeAttributes(back).value.0.attrs;
    if n.entry {
      RestoreLabel(a);
    }
    AttributesRendered(a);
  }

  /** Putting the entry label back into a rendered map it was taken from
      gives the map again. */
  lemma RestoreLabel(a: Attrs)
    requires "label" in a && a["label"] == "entry"
    ensures (Rendered(a) - {"label"})["label" := "entry"] == Rendered(a)
  {
    EntryUnquoted();
    var b := Rendered(a);
    assert b["label"] == "entry";
    SameEntries((b - {"label"})["label" := "entry"], b);
  }
}
