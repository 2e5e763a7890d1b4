/** GetRulesFromJSONSchema: one rule for every scalar type of every property, found by a walk
    over nested property maps whose iteration order is arbitrary at every node. */
module SchemaWalk {

  /** The properties, types and items of a compiled schema without reference cycles. */
  datatype Schema = Schema(props: map<string, Schema>, types: seq<string>, items: Items)

  datatype Items = NoItems | One(schema: Schema) | Many(schemas: seq<Schema>)

  /** The column name, type and path of a rule; its id is a new xid. */
  datatype Leaf = Leaf(name: string, columnType: string, path: string)

  // ---- the rules a schema stands for ----

  ghost function Emitted(path: string, s: Schema): multiset<Leaf>
    decreases s, 2
  {
    EmittedBy(path, s, s.props.Keys)
  }

  ghost function EmittedBy(path: string, s: Schema, keys: set<string>): multiset<Leaf>
    requires keys <= s.props.Keys
    decreases s, 1, |keys|
  {
    if keys == {} then multiset{}
    else
      var k :| k in keys;
      EmittedTypes(path + "." + k, k, s.props[k], 0) + EmittedBy(path, s, keys - {k})
  }

  /** Types i, i + 1, ... of the property k at `path`. */
  ghost function EmittedTypes(path: string, k: string, s: Schema, i: nat): multiset<Leaf>
    decreases s, 4, |s.types| - i
  {
    if i >= |s.types| then multiset{} else EmittedType(path, k, s, s.types[i]) + EmittedTypes(path, k, s, i + 1)
  }

  ghost function EmittedType(path: string, k: string, s: Schema, t: string): multiset<Leaf>
    decreases s, 3
  {
    if t == "array" then
      match s.items
      case NoItems => multiset{}
      case One(w) => Emitted(path, w)
      case Many(ws) => EmittedItems(path, s, 0)
    else if t == "object" then Emitted(path, s)
    else multiset{Leaf(k, t, path)}
  }

  ghost function EmittedItems(path: string, s: Schema, i: nat): multiset<Leaf>
    requires s.items.Many?
    decreases s, 0, |s.items.schemas| - i
  {
    if i >= |s.items.schemas| then multiset{} else Emitted(path, s.items.schemas[i]) + EmittedItems(path, s, i + 1)
  }

  /** Any property may be taken first. */
  lemma {:induction false} EmittedAt(path: string, s: Schema, keys: set<string>, k: string)
    requires keys <= s.props.Keys && k in keys
    ensures EmittedBy(path, s, keys) == EmittedTypes(path + "." + k, k, s.props[k], 0) + EmittedBy(path, s, keys - {k})
    decreases |keys|
  {
    var j :| j in keys && EmittedBy(path, s, keys)
                          == EmittedTypes(path + "." + j, j, s.props[j], 0) + EmittedBy(path, s, keys - {j});
    if j != k {
      EmittedAt(path, s, keys - {j}, k);
      EmittedAt(path, s, keys - {k}, j);
      assert keys - {j} - {k} == keys - {k} - {j};
    }
  }

  // ---- the rules, case by case ----

  /** The schema of one property. */
  function Only(k: string, v: Schema): Schema {
    Schema(map[k := v], [], NoItems)
  }

  lemma {:induction false} SameProps(path: string, s: Schema, r: Schema, keys: set<string>)
    requires keys <= s.props.Keys && keys <= r.props.Keys && forall k <- keys :: s.props[k] == r.props[k]
    ensures EmittedBy(path, s, keys) == EmittedBy(path, r, keys)
    decreases |keys|
  {
    hide EmittedTypes;
    if keys != {} {
      var k :| k in keys;
      EmittedAt(path, s, keys, k);
      EmittedAt(path, r, keys, k);
      SameProps(path, s, r, keys - {k});
    }
  }

  lemma {:induction false} SameItems(path: string, s: Schema, i: nat, r: Schema, j: nat)
    requires s.items.Many? && r.items.Many? && i <= |s.items.schemas| && j <= |r.items.schemas|
    requires s.items.schemas[i..] == r.items.schemas[j..]
    ensures EmittedItems(path, s, i) == EmittedItems(path, r, j)
    decreases |s.items.schemas| - i
  {
    hide Emitted;
    assert |s.items.schemas[i..]| == |r.items.schemas[j..]|;
    if i < |s.items.schemas| {
      assert s.items.schemas[i] == s.items.schemas[i..][0] == r.items.schemas[j];
      assert s.items.schemas[i + 1..] == s.items.schemas[i..][1..] == r.items.schemas[j + 1..];
      SameItems(path, s, i + 1, r, j + 1);
    }
  }

  lemma SameType(path: string, k: string, s: Schema, r: Schema, t: string)
    requires s.props == r.props && s.items == r.items
    ensures EmittedType(path, k, s, t) == EmittedType(path, k, r, t)
  {
    SameProps(path, s, r, s.props.Keys);
    assert Emitted(path, s) == Emitted(path, r);
    if s.items.Many? {
      SameItems(path, s, 0, r, 0);
    }
    hide Emitted, EmittedItems;
  }

  lemma {:induction false} SameTypes(path: string, k: string, s: Schema, i: nat, r: Schema, j: nat)
    requires s.props == r.props && s.items == r.items
    requires i <= |s.types| && j <= |r.types| && s.types[i..] == r.types[j..]
    ensures EmittedTypes(path, k, s, i) == EmittedTypes(path, k, r, j)
    decreases |s.types| - i
  {
    hide EmittedType;
    assert |s.types[i..]| == |r.types[j..]|;
    if i < |s.types| {
      assert s.types[i] == s.types[i..][0] == r.types[j];
      assert s.types[i + 1..] == s.types[i..][1..] == r.types[j + 1..];
      SameType(path, k, s, r, s.types[i]);
      SameTypes(path, k, s, i + 1, r, j + 1);
    }
  }

  lemma OnlyGives(path: string, k: string, v: Schema)
    ensures Emitted(path, Only(k, v)) == EmittedTypes(path + "." + k, k, v, 0)
  {
    EmittedAt(path, Only(k, v), {k}, k);
    assert Only(k, v).props.Keys == {k} && {k} - {k} == {};
    hide EmittedTypes;
  }

  /** The rules of a schema are those of its properties, each on its own. */
  lemma PropertiesAdd(path: string, s: Schema, k: string)
    requires k in s.props
    ensures Emitted(path, s) == Emitted(path, Only(k, s.props[k])) + Emitted(path, s.(props := s.props - {k}))
  {
    EmittedAt(path, s, s.props.Keys, k);
    OnlyGives(path, k, s.props[k]);
    var rest := s.(props := s.props - {k});
    assert rest.props.Keys == s.props.Keys - {k};
    SameProps(path, s, rest, rest.props.Keys);
    assert Emitted(path, rest) == EmittedBy(path, rest, rest.props.Keys);
    hide EmittedTypes, EmittedBy;
  }

  lemma NoPropertiesNoRules(path: string, s: Schema)
    requires s.props == map[]
    ensures Emitted(path, s) == multiset{}
  {
    assert s.props.Keys == {};
  }

  /** The rules of a property are those of its types, each on its own. */
  lemma TypesAdd(path: string, k: string, v: Schema)
    ensures v.types == [] ==> Emitted(path, Only(k, v)) == multiset{}
    ensures v.types != [] ==> Emitted(path, Only(k, v))
                              == Emitted(path, Only(k, v.(types := [v.types[0]])))
                                 + Emitted(path, Only(k, v.(types := v.types[1..])))
  {
    OnlyGives(path, k, v);
    if v.types != [] {
      var at, first, rest := path + "." + k, v.(types := [v.types[0]]), v.(types := v.types[1..]);
      OnlyGives(path, k, first);
      OnlyGives(path, k, rest);
      SameType(at, k, v, first, v.types[0]);
      SameTypes(at, k, v, 1, rest, 0);
      hide Emitted, EmittedType, Only;
      assert EmittedTypes(at, k, first, 1) == multiset{};
    }
  }

  /** A scalar type gives one rule, of the property's name and with its path; an object those of its
      properties; an array those of its items, one schema after the other. */
  lemma OneTypeGives(path: string, k: string, v: Schema, t: string)
    requires v.types == [t]
    ensures var at := path + "." + k;
            Emitted(path, Only(k, v))
            == if t == "object" then Emitted(at, v)
               else if t != "array" then multiset{Leaf(name := k, columnType := t, path := at)}
               else if v.items.One? then Emitted(at, v.items.schema)
               else if v.items.NoItems? || v.items.schemas == [] then multiset{}
               else Emitted(at, v.items.schemas[0]) + Emitted(path, Only(k, v.(items := Many(v.items.schemas[1..]))))
  {
    OnlyGives(path, k, v);
    var at := path + "." + k;
    OneType(at, k, v, t);
    hide EmittedTypes;
    if t == "array" && v.items.Many? && v.items.schemas != [] {
      var rest := v.(items := Many(v.items.schemas[1..]));
      OnlyGives(path, k, rest);
      OneType(at, k, rest, t);
      SameItems(at, v, 1, rest, 0);
      hide Emitted, Only;
    }
  }

  lemma OneType(path: string, k: string, v: Schema, t: string)
    requires v.types == [t]
    ensures EmittedTypes(path, k, v, 0) == EmittedType(path, k, v, t)
  {
    hide EmittedType;
    assert EmittedTypes(path, k, v, 1) == multiset{};
  }

  // ---- the walk ----

  /** Whatever order each property map is iterated in, the rules are the same multiset. */
  method GetRulesFromJsonSchema(path: string, schema: Schema) returns (rules: seq<Leaf>)
    ensures multiset(rules) == Emitted(path, schema)
    decreases schema, 2
  {
    rules := [];
    var keys := schema.props.Keys;
    while keys != {}
      invariant keys <= schema.props.Keys
      invariant Emitted(path, schema) == multiset(rules) + EmittedBy(path, schema, keys)
      decreases |keys|
    {
      var k :| k in keys;
      EmittedAt(path, schema, keys, k);
      var v := schema.props[k];
      var found := WalkTypes(path + "." + k, k, v);
      rules := rules + found;
      keys := keys - {k};
    }
  }

  /** The inner loop over the types of one property. */
  method WalkTypes(path: string, k: string, v: Schema) returns (rules: seq<Leaf>)
    ensures multiset(rules) == EmittedTypes(path, k, v, 0)
    decreases v, 4
  {
    hide EmittedType, Emitted;
    rules := [];
    var i := 0;
    while i < |v.types|
      invariant i <= |v.types|
      invariant EmittedTypes(path, k, v, 0) == multiset(rules) + EmittedTypes(path, k, v, i)
    {
      var found := WalkType(path, k, v, v.types[i]);
      rules := rules + found;
      i := i + 1;
    }
  }

  method WalkType(path: string, k: string, v: Schema, t: string) returns (rules: seq<Leaf>)
    ensures multiset(rules) == EmittedType(path, k, v, t)
    decreases v, 3
  {
    rules := [];
    if t == "array" {
      match v.items {
        case NoItems =>
        case Many(w) =>
          var x := 0;
          while x < |w|
            invariant x <= |w|
            invariant EmittedItems(path, v, 0) == multiset(rules) + EmittedItems(path, v, x)
          {
            var inner := GetRulesFromJsonSchema(path, w[x]);
            rules := rules + inner;
            x := x + 1;
          }
        case One(w) =>
          rules := GetRulesFromJsonSchema(path, w);
      }
    } else if t == "object" {
      rules := GetRulesFromJsonSchema(path, v);
    } else {
      rules := [Leaf(k, t, path)];
    }
  }

  // ---- schemas of objects: emitted paths lead to their leaves ----

  /** Following the keys from the root ends at a property that has the scalar type t. */
  predicate Reaches(s: Schema, keys: seq<string>, t: string)
    decreases |keys|
  {
    keys != [] && keys[0] in s.props
    && if |keys| == 1 then t in s.props[keys[0]].types && t != "array" && t != "object"
       else "object" in s.props[keys[0]].types && Reaches(s.props[keys[0]], keys[1..], t)
  }

  predicate NoArrays(s: Schema) {
    forall k <- s.props :: "array" !in s.props[k].types && NoArrays(s.props[k])
  }

  function Dotted(path: string, keys: seq<string>): string
    decreases |keys|
  {
    if keys == [] then path else Dotted(path + "." + keys[0], keys[1..])
  }

  lemma {:induction false} InEmittedBy(path: string, s: Schema, keys: set<string>, leaf: Leaf)
    requires keys <= s.props.Keys
    ensures leaf in EmittedBy(path, s, keys)
            <==> exists k <- keys :: leaf in EmittedTypes(path + "." + k, k, s.props[k], 0)
    decreases |keys|
  {
    if keys != {} {
      var j :| j in keys;
      EmittedAt(path, s, keys, j);
      InEmittedBy(path, s, keys - {j}, leaf);
      if k :| k in keys && leaf in EmittedTypes(path + "." + k, k, s.props[k], 0) {
        assert k == j || k in keys - {j};
      }
    }
  }

  lemma InTypesStep(path: string, k: string, s: Schema, i: nat, leaf: Leaf)
    requires i < |s.types|
    ensures leaf in EmittedTypes(path, k, s, i)
            <==> leaf in EmittedType(path, k, s, s.types[i]) || leaf in EmittedTypes(path, k, s, i + 1)
  {
    hide EmittedType;
  }

  lemma InNoTypes(path: string, k: string, s: Schema, i: nat, leaf: Leaf)
    requires i >= |s.types|
    ensures leaf !in EmittedTypes(path, k, s, i)
  {
  }

  lemma {:induction false} InEmittedTypes(path: string, k: string, s: Schema, i: nat, leaf: Leaf)
    ensures leaf in EmittedTypes(path, k, s, i)
            <==> exists j :: i <= j < |s.types| && leaf in EmittedType(path, k, s, s.types[j])
    decreases |s.types| - i
  {
    hide EmittedTypes, EmittedType;
    if i < |s.types| {
      InTypesStep(path, k, s, i, leaf);
      InEmittedTypes(path, k, s, i + 1, leaf);
    } else {
      InNoTypes(path, k, s, i, leaf);
    }
  }

  /** What one type of such a property emits. */
  lemma InType(path: string, k: string, s: Schema, t: string, leaf: Leaf)
    requires t != "array"
    ensures leaf in EmittedType(path, k, s, t)
            <==> if t == "object" then leaf in Emitted(path, s) else leaf == Leaf(k, t, path)
  {
    hide Emitted;
  }

  lemma InProperty(path: string, k: string, s: Schema, leaf: Leaf)
    requires "array" !in s.types
    ensures leaf in EmittedTypes(path, k, s, 0)
            <==> (leaf.name == k && leaf.path == path && leaf.columnType in s.types && leaf.columnType != "object")
                 || ("object" in s.types && leaf in Emitted(path, s))
  {
    InEmittedTypes(path, k, s, 0, leaf);
    hide EmittedTypes, Emitted, EmittedType;
    forall j | 0 <= j < |s.types|
      ensures leaf in EmittedType(path, k, s, s.types[j])
              <==> if s.types[j] == "object" then leaf in Emitted(path, s) else leaf == Leaf(k, s.types[j], path)
    {
      assert s.types[j] in s.types;
      InType(path, k, s, s.types[j], leaf);
    }
    if "object" in s.types && leaf in Emitted(path, s) {
      var j :| 0 <= j < |s.types| && s.types[j] == "object";
      assert leaf in EmittedType(path, k, s, s.types[j]);
    }
    if leaf.name == k && leaf.path == path && leaf.columnType in s.types && leaf.columnType != "object" {
      var j :| 0 <= j < |s.types| && s.types[j] == leaf.columnType;
      assert leaf in EmittedType(path, k, s, s.types[j]);
    }
  }

  ghost predicate LeadsTo(path: string, s: Schema, leaf: Leaf, keys: seq<string>) {
    Reaches(s, keys, leaf.columnType) && leaf.name == keys[|keys| - 1] && leaf.path == Dotted(path, keys)
  }

  /** A rule is emitted exactly when its path spells a walk through the schema to a property of
      that name and type. */
  lemma {:induction false} EmittedLeavesAreReached(path: string, s: Schema, leaf: Leaf)
    requires NoArrays(s)
    ensures leaf in Emitted(path, s) <==> exists keys :: LeadsTo(path, s, leaf, keys)
    decreases s
  {
    InEmittedBy(path, s, s.props.Keys, leaf);
    forall k <- s.props.Keys
      ensures leaf in EmittedTypes(path + "." + k, k, s.props[k], 0)
              <==> exists keys :: keys != [] && keys[0] == k && LeadsTo(path, s, leaf, keys)
    {
      PropertyIsReached(path, s, k, leaf);
    }
    if keys :| LeadsTo(path, s, leaf, keys) {
      assert keys != [] && keys[0] in s.props.Keys;
    }
  }

  lemma {:induction false} PropertyIsReached(path: string, s: Schema, k: string, leaf: Leaf)
    requires NoArrays(s) && k in s.props
    ensures leaf in EmittedTypes(path + "." + k, k, s.props[k], 0)
            <==> exists keys :: keys != [] && keys[0] == k && LeadsTo(path, s, leaf, keys)
    decreases s, 0
  {
    var v, at := s.props[k], path + "." + k;
    InProperty(at, k, v, leaf);
    EmittedLeavesAreReached(at, v, leaf);
    hide EmittedTypes, Emitted, NoArrays;
    if leaf.name == k && leaf.path == at && leaf.columnType in v.types && leaf.columnType != "object" {
      assert leaf.columnType != "array";
      LeadsOne(path, s, leaf, k);
    }
    if rest :| "object" in v.types && LeadsTo(at, v, leaf, rest) {
      LeadsOn(path, s, leaf, [k] + rest);
    }
    if keys :| keys != [] && keys[0] == k && LeadsTo(path, s, leaf, keys) {
      if |keys| == 1 {
        LeadsOne(path, s, leaf, k);
        assert keys == [k];
      } else {
        LeadsOn(path, s, leaf, keys);
      }
    }
  }

  lemma LeadsOne(path: string, s: Schema, leaf: Leaf, k: string)
    requires k in s.props
    ensures LeadsTo(path, s, leaf, [k])
            <==> leaf.name == k && leaf.path == path + "." + k && leaf.columnType in s.props[k].types
                 && leaf.columnType != "array" && leaf.columnType != "object"
  {
    assert [k][1..] == [] && Dotted(path + "." + k, []) == path + "." + k;
  }

  lemma LeadsOn(path: string, s: Schema, leaf: Leaf, keys: seq<string>)
    requires |keys| > 1 && keys[0] in s.props
    ensures [keys[0]] + keys[1..] == keys
    ensures LeadsTo(path, s, leaf, keys)
            <==> "object" in s.props[keys[0]].types && LeadsTo(path + "." + keys[0], s.props[keys[0]], leaf, keys[1..])
  {
  }

  // ---- reading a path back ----

  /** Split at the dots. */
  function Split(s: string): (parts: seq<string>)
    ensures parts != []
  {
    if s == [] then [[]]
    else
      var front := Split(s[..|s| - 1]);
      var last := |front| - 1;
      if s[|s| - 1] == '.' then front + [[]] else front[..last] + [front[last] + [s[|s| - 1]]]
  }

  lemma {:induction false} SplitLast(path: string, key: string)
    requires '.' !in key
    ensures Split(path + "." + key) == Split(path) + [key]
  {
    var s := path + "." + key;
    if key == [] {
      assert s == path + ".";
      assert s[..|s| - 1] == path;
    } else {
      var n := |key| - 1;
      assert s[..|s| - 1] == path + "." + key[..n];
      SplitLast(path, key[..n]);
      assert key == key[..n] + [key[n]];
      assert (Split(path) + [key[..n]])[..|Split(path)|] == Split(path);
    }
  }

  lemma {:induction false} SplitDotted(path: string, keys: seq<string>)
    requires forall k <- keys :: '.' !in k
    ensures Split(Dotted(path, keys)) == Split(path) + keys
    decreases |keys|
  {
    if keys != [] {
      SplitLast(path, keys[0]);
      SplitDotted(path + "." + keys[0], keys[1..]);
    }
  }

  predicate NoDots(s: Schema) {
    forall k <- s.props :: '.' !in k && NoDots(s.props[k])
  }

  lemma {:induction false} ReachedKeysHaveNoDots(s: Schema, keys: seq<string>, t: string)
    requires NoDots(s) && Reaches(s, keys, t)
    ensures forall k <- keys :: '.' !in k
    decreases |keys|
  {
    if |keys| > 1 {
      ReachedKeysHaveNoDots(s.props[keys[0]], keys[1..], t);
      assert keys == [keys[0]] + keys[1..];
    }
  }

  /** Round trip: with object schemas and keys free of dots, the parts of an emitted path behind
      the root lead back to the very property that emitted it. */
  lemma PathLeadsBack(s: Schema, leaf: Leaf)
    requires NoArrays(s) && NoDots(s) && leaf in Emitted("$", s)
    ensures var parts := Split(leaf.path);
            parts[0] == "$" && Reaches(s, parts[1..], leaf.columnType) && parts[|parts| - 1] == leaf.name
  {
    EmittedLeavesAreReached("$", s, leaf);
    var keys :| LeadsTo("$", s, leaf, keys);
    ReachedKeysHaveNoDots(s, keys, leaf.columnType);
    SplitDotted("$", keys);
    assert "$"[..0] == [] && Split([]) == [[]] && [] + ['$'] == "$";
    assert Split("$") == [[]][..0] + [[] + ['$']];
    assert (["$"] + keys)[1..] == keys;
  }
}
