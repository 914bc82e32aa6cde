/** The marshaler that flattens a parameter mapping and an attribute mapping
    into the tagged lists HFSS's COM interface expects:
    `["NAME:<label>", "<key>:=", value, "<key>:=", value, ...]`. */
module Utils {
  import opened PyFormat
  import opened Expressions

  /** A value of a parameter or attribute mapping, by its Python type.
      `Other` stands for every type the marshaler does not accept. */
  datatype Value = Int(i: int) | Float(x: real) | Str(s: string) | Bool(b: bool) | Ex(e: Expression) | Other

  /** The attributes argument: a mapping (its `.items()`, in iteration order),
      or an object that has no `.items()`. */
  datatype Attributes = Items(items: seq<(string, Value)>) | NoItems

  const AttributesSentinel: string := "NAME:Attributes"

  /** A value HFSS accepts as it is: a float, str, int or bool. */
  predicate Primitive(v: Value) {
    v.Int? || v.Float? || v.Str? || v.Bool?
  }

  /** `"NAME:{0}".format(name)` */
  function Sentinel(name: string): (r: string)
    ensures r == "NAME:" + name
  {
    FormatOneField("NAME:{0}", "NAME:", 0, "", [name]);
    Format("NAME:{0}", [name])
  }

  /** `"{0}:=".format(key)`: a key tagged as "a named value follows". */
  function Tag(key: string): (r: string)
    ensures r == key + ":="
  {
    FormatOneField("{0}:=", "", 0, ":=", [key]);
    Format("{0}:=", [key])
  }

  /** `key.replace('_', ' ')` */
  function ReplaceUnderscores(key: string): (r: string)
    ensures |r| == |key|
    ensures forall i :: 0 <= i < |key| ==> r[i] == (if key[i] == '_' then ' ' else key[i])
  {
    if key == [] then []
    else ReplaceUnderscores(key[..|key| - 1]) + [if key[|key| - 1] == '_' then ' ' else key[|key| - 1]]
  }

  /** Rewritten keys hold no underscore, so rewriting again changes nothing;
      keys without underscores are left as they are. */
  lemma ReplaceUnderscoresSettles(key: string)
    ensures '_' !in ReplaceUnderscores(key)
    ensures ReplaceUnderscores(ReplaceUnderscores(key)) == ReplaceUnderscores(key)
    ensures '_' !in key ==> ReplaceUnderscores(key) == key
  {
    var r := ReplaceUnderscores(key);
    assert forall i :: 0 <= i < |r| ==> r[i] != '_';
    assert ReplaceUnderscores(r) == r;
    if '_' !in key {
      assert forall i :: 0 <= i < |key| ==> key[i] != '_';
    }
  }

  /** What a kept parameter value becomes in the list: an Expression is
      replaced by its text, a primitive value stays as it is. */
  function Convert(v: Value): Value {
    if v.Ex? then Str(v.e.expr) else v
  }

  /** A value the marshaler keeps: an Expression or a primitive. */
  predicate Accepted(v: Value) {
    v.Ex? || Primitive(v)
  }

  /** The elements one parameter entry adds: none for an unsupported value. */
  function ParameterEntry(key: string, v: Value): seq<Value> {
    if Accepted(v) then [Str(Tag(ReplaceUnderscores(key))), Convert(v)] else []
  }

  function ParameterEntries(parameters: seq<(string, Value)>): seq<Value> {
    if parameters == [] then []
    else
      var last := parameters[|parameters| - 1];
      ParameterEntries(parameters[..|parameters| - 1]) + ParameterEntry(last.0, last.1)
  }

  /** The parameter list built from a parameter mapping and its label. */
  function ParameterList(parameters: seq<(string, Value)>, parametersName: string): seq<Value> {
    [Str(Sentinel(parametersName))] + ParameterEntries(parameters)
  }

  function AttributeEntries(items: seq<(string, Value)>): seq<Value> {
    if items == [] then []
    else
      var last := items[|items| - 1];
      AttributeEntries(items[..|items| - 1]) + [Str(Tag(last.0)), last.1]
  }

  /** The attribute list: empty when the argument has no `.items()`. */
  function AttributeList(attributes: Attributes): seq<Value> {
    match attributes
    case NoItems => []
    case Items(items) => [Str(AttributesSentinel)] + AttributeEntries(items)
  }

  /** `collect_parameters_and_attributes(parameters, attributes, parametersName)` */
  method CollectParametersAndAttributes(parameters: seq<(string, Value)>, attributes: Attributes, parametersName: string)
    returns (parameterList: seq<Value>, attributeList: seq<Value>)
    ensures parameterList == ParameterList(parameters, parametersName)
    ensures attributeList == AttributeList(attributes)
  {
    parameterList := [Str(Sentinel(parametersName))];
    for i := 0 to |parameters|
      invariant parameterList == ParameterList(parameters[..i], parametersName)
    {
      assert parameters[..i + 1][..i] == parameters[..i];
      var k, v := parameters[i].0, parameters[i].1;
      assert ParameterList(parameters[..i + 1], parametersName) == parameterList + ParameterEntry(k, v);
      if v.Ex? {
        v := Str(v.e.expr);
      } else if !v.Float? && !v.Str? && !v.Int? && !v.Bool? {
        continue;
      }
      parameterList := parameterList + [Str(Tag(ReplaceUnderscores(k))), v];
    }
    assert parameters[..|parameters|] == parameters;

    attributeList := [Str(AttributesSentinel)];
    match attributes
    case NoItems =>
      // `attributes.items` raises AttributeError
      attributeList := [];
    case Items(items) =>
      for i := 0 to |items|
        invariant attributeList == AttributeList(Items(items[..i]))
      {
        assert items[..i + 1][..i] == items[..i];
        attributeList := attributeList + [Str(Tag(items[i].0)), items[i].1];
      }
      assert items[..|items|] == items;
  }

  /** The parameter entries that reach the list, in mapping order, with the
      Expressions among them replaced by their text. */
  function Kept(parameters: seq<(string, Value)>): seq<(string, Value)> {
    if parameters == [] then []
    else
      var last := parameters[|parameters| - 1];
      Kept(parameters[..|parameters| - 1]) + (if Accepted(last.1) then [(last.0, Convert(last.1))] else [])
  }

  lemma {:induction false} KeptConcat(a: seq<(string, Value)>, b: seq<(string, Value)>)
    ensures Kept(a + b) == Kept(a) + Kept(b)
  {
    if b == [] {
      assert a + b == a;
    } else {
      assert (a + b)[..|a + b| - 1] == a + b[..|b| - 1];
      KeptConcat(a, b[..|b| - 1]);
    }
  }

  lemma {:induction false} EntriesConcat(a: seq<(string, Value)>, b: seq<(string, Value)>)
    ensures ParameterEntries(a + b) == ParameterEntries(a) + ParameterEntries(b)
  {
    if b == [] {
      assert a + b == a;
    } else {
      assert (a + b)[..|a + b| - 1] == a + b[..|b| - 1];
      EntriesConcat(a, b[..|b| - 1]);
    }
  }

  /** Only floats, strings, ints and bools are kept; Expressions arrive as text. */
  lemma {:induction false} KeptPrimitive(parameters: seq<(string, Value)>)
    ensures |Kept(parameters)| <= |parameters|
    ensures forall j :: 0 <= j < |Kept(parameters)| ==> Primitive(Kept(parameters)[j].1)
  {
    if parameters != [] {
      KeptPrimitive(parameters[..|parameters| - 1]);
    }
  }

  /** An accepted entry keeps its place: it is kept right after the entries
      kept before it, with its value converted. */
  lemma KeptAt(parameters: seq<(string, Value)>, i: nat)
    requires i < |parameters| && Accepted(parameters[i].1)
    ensures |Kept(parameters[..i])| < |Kept(parameters)|
    ensures Kept(parameters)[|Kept(parameters[..i])|] == (parameters[i].0, Convert(parameters[i].1))
  {
    assert parameters == parameters[..i] + [parameters[i]] + parameters[i + 1..];
    KeptConcat(parameters[..i] + [parameters[i]], parameters[i + 1..]);
    KeptConcat(parameters[..i], [parameters[i]]);
    assert [parameters[i]][..0] == [];
  }

  /** The elements of the entries: for the j-th kept entry, its tagged key
      with underscores turned into spaces, then its value. */
  lemma {:induction false} EntriesLayout(parameters: seq<(string, Value)>)
    ensures |ParameterEntries(parameters)| == 2 * |Kept(parameters)|
    ensures forall j :: 0 <= j < |Kept(parameters)| ==>
      ParameterEntries(parameters)[2 * j] == Str(ReplaceUnderscores(Kept(parameters)[j].0) + ":=")
      && ParameterEntries(parameters)[2 * j + 1] == Kept(parameters)[j].1
  {
    if parameters != [] {
      var init, last := parameters[..|parameters| - 1], parameters[|parameters| - 1];
      EntriesLayout(init);
      var entries, kept := ParameterEntries(init), Kept(init);
      assert ParameterEntries(parameters) == entries + ParameterEntry(last.0, last.1);
      assert Kept(parameters) == kept + (if Accepted(last.1) then [(last.0, Convert(last.1))] else []);
      forall j | 0 <= j < |Kept(parameters)|
        ensures ParameterEntries(parameters)[2 * j] == Str(ReplaceUnderscores(Kept(parameters)[j].0) + ":=")
        ensures ParameterEntries(parameters)[2 * j + 1] == Kept(parameters)[j].1
      {
        if j < |kept| {
          assert ParameterEntries(parameters)[2 * j] == entries[2 * j];
          assert ParameterEntries(parameters)[2 * j + 1] == entries[2 * j + 1];
        }
      }
    }
  }

  /** The shape of the parameter list: the sentinel `"NAME:" + parametersName`,
      then two elements for each kept entry, in mapping order. */
  lemma ParameterListLayout(parameters: seq<(string, Value)>, parametersName: string)
    ensures var out := ParameterList(parameters, parametersName);
      var kept := Kept(parameters);
      && |out| == 1 + 2 * |kept|
      && out[0] == Str("NAME:" + parametersName)
      && forall j :: 0 <= j < |kept| ==>
           out[1 + 2 * j] == Str(ReplaceUnderscores(kept[j].0) + ":=") && out[2 + 2 * j] == kept[j].1
  {
    EntriesLayout(parameters);
  }

  /** Where an accepted entry lands: its tag at `1 + 2c` and its value (an
      Expression's text in place of the Expression) at `2 + 2c`, where `c`
      counts the entries kept before it. */
  lemma ParameterEntryPlace(parameters: seq<(string, Value)>, parametersName: string, i: nat)
    requires i < |parameters| && Accepted(parameters[i].1)
    ensures var out := ParameterList(parameters, parametersName);
      var c := |Kept(parameters[..i])|;
      && 2 + 2 * c < |out|
      && out[1 + 2 * c] == Str(ReplaceUnderscores(parameters[i].0) + ":=")
      && out[2 + 2 * c] == Convert(parameters[i].1)
  {
    KeptAt(parameters, i);
    ParameterListLayout(parameters, parametersName);
  }

  /** An entry of unsupported type contributes nothing: the list is the same
      as if the entry were not in the mapping. */
  lemma UnsupportedDropped(parameters: seq<(string, Value)>, parametersName: string, i: nat)
    requires i < |parameters| && !Accepted(parameters[i].1)
    ensures ParameterList(parameters[..i] + parameters[i + 1..], parametersName) == ParameterList(parameters, parametersName)
  {
    var before, entry, after := parameters[..i], [parameters[i]], parameters[i + 1..];
    assert parameters == before + (entry + after);
    assert ParameterEntries(entry) == [] by {
      assert entry[..0] == [];
    }
    EntriesConcat(entry, after);
    EntriesConcat(before, entry + after);
    EntriesConcat(before, after);
  }

  /** Mapping order is kept: the list for a prefix of the mapping is a prefix of the list. */
  lemma ParameterListOrder(parameters: seq<(string, Value)>, parametersName: string, i: nat)
    requires i <= |parameters|
    ensures ParameterList(parameters[..i], parametersName) <= ParameterList(parameters, parametersName)
  {
    assert parameters == parameters[..i] + parameters[i..];
    EntriesConcat(parameters[..i], parameters[i..]);
  }

  /** A string ending in the marker `:=` and holding no underscore. */
  predicate ParameterTag(v: Value) {
    v.Str? && |v.s| >= 2 && v.s[|v.s| - 2..] == ":=" && '_' !in v.s
  }

  /** What the COM interface receives: the sentinel and the tags are strings,
      tags end in `:=` and hold no underscore, and every value is a float,
      str, int or bool, never an Expression or an unsupported value. */
  lemma ParameterListWireShape(parameters: seq<(string, Value)>, parametersName: string)
    ensures var out := ParameterList(parameters, parametersName);
      && (forall x :: x in out ==> Primitive(x))
      && (forall j :: 0 <= j < (|out| - 1) / 2 ==> ParameterTag(out[1 + 2 * j]))
  {
    var out := ParameterList(parameters, parametersName);
    var kept := Kept(parameters);
    ParameterListLayout(parameters, parametersName);
    KeptPrimitive(parameters);
    forall x | x in out ensures Primitive(x) {
      var n :| 0 <= n < |out| && out[n] == x;
      if n > 0 && n % 2 == 0 {
        assert out[2 + 2 * ((n - 2) / 2)] == kept[(n - 2) / 2].1;
      } else if n > 0 {
        assert out[1 + 2 * ((n - 1) / 2)] == Str(ReplaceUnderscores(kept[(n - 1) / 2].0) + ":=");
      }
    }
    forall j | 0 <= j < (|out| - 1) / 2 ensures ParameterTag(out[1 + 2 * j]) {
      var key := ReplaceUnderscores(kept[j].0);
      assert out[1 + 2 * j].s == key + ":=";
      assert (key + ":=")[|key|..] == ":=";
    }
  }

  lemma {:induction false} AttributeEntriesLayout(items: seq<(string, Value)>)
    ensures |AttributeEntries(items)| == 2 * |items|
    ensures forall j :: 0 <= j < |items| ==>
      AttributeEntries(items)[2 * j] == Str(items[j].0 + ":=") && AttributeEntries(items)[2 * j + 1] == items[j].1
  {
    if items != [] {
      AttributeEntriesLayout(items[..|items| - 1]);
    }
  }

  /** The attribute list: `[]` when the argument has no `.items()`; otherwise
      `"NAME:Attributes"` and, for every item in order, its key tagged as it
      is (underscores kept) and its value unfiltered and unconverted. */
  lemma AttributeListLayout(attributes: Attributes)
    ensures var out := AttributeList(attributes);
      match attributes
      case NoItems => out == []
      case Items(items) =>
        && |out| == 1 + 2 * |items|
        && out[0] == Str("NAME:Attributes")
        && forall j :: 0 <= j < |items| ==> out[1 + 2 * j] == Str(items[j].0 + ":=") && out[2 + 2 * j] == items[j].1
  {
    if attributes.Items? {
      AttributeEntriesLayout(attributes.items);
    }
  }

  /** An empty mapping still gives the sentinel, unlike a missing `.items()`. */
  lemma EmptyAttributes()
    ensures AttributeList(Items([])) == [Str("NAME:Attributes")]
    ensures AttributeList(NoItems) == []
  {
  }

  /** Worked examples of the marshaler's documented behaviour. */
  const ExampleParameters: seq<(string, Value)> := [("start_freq", Float(1.0)), ("label", Str("x")), ("skip_me", Other)]

  /** Keys lose their underscores and gain the marker. */
  lemma KeyExample()
    ensures Tag(ReplaceUnderscores("max_delta_s")) == "max delta s:="
    ensures ReplaceUnderscores("start_freq") + ":=" == "start freq:="
    ensures ReplaceUnderscores("label") + ":=" == "label:="
  {
  }

  lemma ExampleKept()
    ensures Kept(ExampleParameters) == [("start_freq", Float(1.0)), ("label", Str("x"))]
  {
    var p0, p1, p2 := ExampleParameters[0], ExampleParameters[1], ExampleParameters[2];
    assert ExampleParameters == [p0, p1] + [p2];
    assert [p0, p1] == [p0] + [p1];
    KeptConcat([p0, p1], [p2]);
    KeptConcat([p0], [p1]);
    assert [p0][..0] == [] && [p1][..0] == [] && [p2][..0] == [];
    assert Kept([p2]) == [];
  }

  /** A float and a string are kept, a list value is dropped with its key. */
  lemma MarshalExample()
    ensures ParameterList(ExampleParameters, "P") == [Str("NAME:P"), Str("start freq:="), Float(1.0), Str("label:="), Str("x")]
  {
    var ps := ExampleParameters;
    var out := ParameterList(ps, "P");
    var kept := Kept(ps);
    ExampleKept();
    ParameterListLayout(ps, "P");
    KeyExample();
    assert |out| == 5;
    assert out[0] == Str("NAME:P");
    assert out[1] == Str(ReplaceUnderscores(kept[0].0) + ":=") == Str("start freq:=");
    assert out[2] == Float(1.0);
    assert out[3] == Str(ReplaceUnderscores(kept[1].0) + ":=") == Str("label:=");
    assert out[4] == Str("x");
  }

  /** An Expression value arrives as its text. */
  lemma ExpressionValueExample()
    ensures ParameterList([("len", Ex(Expression("2*w")))], "P") == [Str("NAME:P"), Str("len:="), Str("2*w")]
  {
    var ps := [("len", Ex(Expression("2*w")))];
    var out := ParameterList(ps, "P");
    assert ps[..0] == [];
    assert Kept(ps) == [("len", Str("2*w"))];
    ParameterListLayout(ps, "P");
    assert |out| == 3;
    assert ReplaceUnderscores("len") + ":=" == "len:=";
    assert out[0] == Str("NAME:P");
  }

  lemma AttributeExample()
    ensures AttributeList(Items([("Color", Str("red"))])) == [Str("NAME:Attributes"), Str("Color:="), Str("red")]
  {
    var items := [("Color", Str("red"))];
    var out := AttributeList(Items(items));
    AttributeListLayout(Items(items));
    assert |out| == 3;
    assert out[1] == Str(items[0].0 + ":=");
    assert items[0].0 + ":=" == "Color:=";
    assert out[2] == Str("red");
  }
}
