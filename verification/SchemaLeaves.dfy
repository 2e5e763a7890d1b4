/** How many rules a schema gives: one for every walk from the root down to a scalar type, through
    objects, arrays of one schema and arrays of several, counted with multiplicity. */
module SchemaLeaves {
  import opened Domain
  import opened SchemaWalk

  /** One step of a walk: a property, one of its types and, for an array of several schemas, which. */
  datatype Hop = Hop(key: string, ty: nat, item: nat)

  /** Where a hop through type t of property v leads, if it leads on. */
  predicate Leads(v: Schema, t: string, item: nat) {
    if t == "object" then item == 0
    else t == "array" && match v.items
      case NoItems => false
      case One(_) => item == 0
      case Many(ws) => item < |ws|
  }

  function Inner(v: Schema, t: string, item: nat): (w: Schema)
    requires Leads(v, t, item)
    ensures w == v || w < v
  {
    if t == "object" then v
    else match v.items
      case One(w) => w
      case Many(ws) => ws[item]
  }

  predicate Scalar(t: string) {
    t != "array" && t != "object"
  }

  predicate Starts(s: Schema, hop: Hop) {
    hop.key in s.props && hop.ty < |s.props[hop.key].types|
  }

  /** A walk ends at a scalar type; every hop before leads on. */
  predicate Walk(s: Schema, hops: seq<Hop>)
    decreases |hops|
  {
    hops != [] && Starts(s, hops[0])
    && var v, hop := s.props[hops[0].key], hops[0];
    && var t := v.types[hop.ty];
    if |hops| == 1 then Scalar(t) && hop.item == 0
    else Leads(v, t, hop.item) && Walk(Inner(v, t, hop.item), hops[1..])
  }

  /** The rule a walk stands for. */
  function LeafAt(path: string, s: Schema, hops: seq<Hop>): Leaf
    requires Walk(s, hops)
    decreases |hops|
  {
    var v, hop := s.props[hops[0].key], hops[0];
    var at, t := path + "." + hop.key, v.types[hop.ty];
    if |hops| == 1 then Leaf(hop.key, t, at) else LeafAt(at, Inner(v, t, hop.item), hops[1..])
  }

  ghost predicate AllWalks(s: Schema, walks: seq<seq<Hop>>) {
    forall x <- walks :: Walk(s, x)
  }

  function Leaves(path: string, s: Schema, walks: seq<seq<Hop>>): (r: seq<Leaf>)
    requires AllWalks(s, walks)
    ensures |r| == |walks|
  {
    seq(|walks|, i requires 0 <= i < |walks| => LeafAt(path, s, walks[i]))
  }

  /** `walks` lists every walk whose first hop is in `sel`, each once, and `m` is their rules. */
  ghost predicate Lists(path: string, s: Schema, walks: seq<seq<Hop>>, sel: Hop -> bool, m: multiset<Leaf>) {
    && Distinct(walks) && AllWalks(s, walks)
    && (forall x <- walks :: sel(x[0]))
    && (forall x :: Walk(s, x) && sel(x[0]) ==> x in walks)
    && m == multiset(Leaves(path, s, walks))
  }

  lemma NoWalks(path: string, s: Schema, sel: Hop -> bool)
    requires forall hop :: sel(hop) ==> !Starts(s, hop)
    ensures Lists(path, s, [], sel, multiset{})
  {
  }

  /** Two lists with disjoint first hops are one list. */
  lemma JoinWalks(path: string, s: Schema, a: seq<seq<Hop>>, selA: Hop -> bool, m: multiset<Leaf>,
                  b: seq<seq<Hop>>, selB: Hop -> bool, n: multiset<Leaf>, sel: Hop -> bool)
    requires Lists(path, s, a, selA, m) && Lists(path, s, b, selB, n)
    requires forall hop :: Starts(s, hop) ==> !(selA(hop) && selB(hop)) && (sel(hop) <==> selA(hop) || selB(hop))
    ensures Lists(path, s, a + b, sel, m + n)
  {
    assert Leaves(path, s, a + b) == Leaves(path, s, a) + Leaves(path, s, b);
    hide Walk;
    forall i, j | 0 <= i < j < |a + b| ensures (a + b)[i] != (a + b)[j] {
      if i < |a| <= j {
        assert a[i] in a && b[j - |a|] in b && Walk(s, a[i]);
        FirstHopStarts(s, a[i]);
      }
    }
    forall x | x in a + b ensures sel(x[0]) { FirstHopStarts(s, x); }
    forall x | Walk(s, x) && sel(x[0]) ensures x in a + b { FirstHopStarts(s, x); }
  }

  lemma FirstHopStarts(s: Schema, x: seq<Hop>)
    requires Walk(s, x)
    ensures x != [] && Starts(s, x[0])
  {
  }

  function Behind(hop: Hop, walks: seq<seq<Hop>>): (r: seq<seq<Hop>>)
    ensures |r| == |walks| && forall i :: 0 <= i < |walks| ==> r[i] == [hop] + walks[i]
  {
    seq(|walks|, i requires 0 <= i < |walks| => [hop] + walks[i])
  }

  /** The walks behind one hop are the walks of the schema it leads to. */
  lemma WalksBehind(path: string, s: Schema, hop: Hop, walks: seq<seq<Hop>>, sel: Hop -> bool, m: multiset<Leaf>)
    requires Starts(s, hop)
    requires var v := s.props[hop.key]; var t := v.types[hop.ty];
             Leads(v, t, hop.item) && Lists(path + "." + hop.key, Inner(v, t, hop.item), walks, (h: Hop) => true, m)
    requires forall h :: sel(h) <==> h == hop
    ensures Lists(path, s, Behind(hop, walks), sel, m)
  {
    var v := s.props[hop.key];
    var t := v.types[hop.ty];
    var inner, all := Inner(v, t, hop.item), Behind(hop, walks);
    forall i | 0 <= i < |walks|
      ensures Walk(s, all[i]) && LeafAt(path, s, all[i]) == LeafAt(path + "." + hop.key, inner, walks[i])
    {
      assert walks[i] in walks;
      FirstHopStarts(inner, walks[i]);
      assert all[i][1..] == walks[i];
    }
    assert Leaves(path, s, all) == Leaves(path + "." + hop.key, inner, walks);
    forall x | Walk(s, x) && sel(x[0]) ensures x in all {
      assert |x| > 1 && x == [hop] + x[1..];
      assert Walk(inner, x[1..]) && x[1..] in walks;
      var i :| 0 <= i < |walks| && walks[i] == x[1..];
      assert all[i] == x;
    }
    forall i, j | 0 <= i < j < |all| ensures all[i] != all[j] {
      assert all[i][1..] == walks[i] && all[j][1..] == walks[j];
    }
  }

  lemma ScalarWalk(path: string, s: Schema, hop: Hop, sel: Hop -> bool)
    requires Starts(s, hop) && Scalar(s.props[hop.key].types[hop.ty]) && hop.item == 0
    requires forall h :: sel(h) <==> h.key == hop.key && h.ty == hop.ty
    ensures Lists(path, s, [[hop]], sel,
                  multiset{Leaf(hop.key, s.props[hop.key].types[hop.ty], path + "." + hop.key)})
  {
    var leaf := Leaf(hop.key, s.props[hop.key].types[hop.ty], path + "." + hop.key);
    assert Leaves(path, s, [[hop]]) == [leaf];
    forall x | Walk(s, x) && sel(x[0]) ensures x in [[hop]] {
      assert |x| == 1;
      assert x == [x[0]];
    }
  }

  // ---- the walk of the code lists them all ----

  lemma {:induction false} ListSchema(path: string, s: Schema) returns (walks: seq<seq<Hop>>)
    ensures Lists(path, s, walks, (h: Hop) => true, Emitted(path, s))
    decreases s, 5
  {
    walks := ListKeys(path, s, s.props.Keys);
    Widen(path, s, walks, (h: Hop) => h.key in s.props.Keys, (h: Hop) => true, Emitted(path, s));
  }

  lemma Widen(path: string, s: Schema, walks: seq<seq<Hop>>, from: Hop -> bool, to: Hop -> bool, m: multiset<Leaf>)
    requires Lists(path, s, walks, from, m) && forall h :: Starts(s, h) ==> from(h) == to(h)
    ensures Lists(path, s, walks, to, m)
  {
    hide Walk;
    forall x | Walk(s, x) ensures x != [] && Starts(s, x[0]) { FirstHopStarts(s, x); }
  }

  lemma {:induction false} ListKeys(path: string, s: Schema, keys: set<string>) returns (walks: seq<seq<Hop>>)
    requires keys <= s.props.Keys
    ensures Lists(path, s, walks, (h: Hop) => h.key in keys, EmittedBy(path, s, keys))
    decreases s, 4, |keys|
  {
    var sel := (h: Hop) => h.key in keys;
    if keys == {} {
      walks := [];
      NoWalks(path, s, sel);
    } else {
      var k :| k in keys;
      EmittedAt(path, s, keys, k);
      hide Lists, EmittedBy, EmittedTypes;
      var here := ListTypes(path, s, k, 0);
      var rest := ListKeys(path, s, keys - {k});
      JoinWalks(path, s, here, (h: Hop) => h.key == k && h.ty >= 0, EmittedTypes(path + "." + k, k, s.props[k], 0),
                rest, (h: Hop) => h.key in keys - {k}, EmittedBy(path, s, keys - {k}), sel);
      walks := here + rest;
    }
  }

  lemma {:induction false} ListTypes(path: string, s: Schema, k: string, i: nat) returns (walks: seq<seq<Hop>>)
    requires k in s.props
    ensures Lists(path, s, walks, (h: Hop) => h.key == k && h.ty >= i, EmittedTypes(path + "." + k, k, s.props[k], i))
    decreases s, 3, |s.props[k].types| - i
  {
    var v, at, sel := s.props[k], path + "." + k, (h: Hop) => h.key == k && h.ty >= i;
    if i >= |v.types| {
      walks := [];
      NoWalks(path, s, sel);
    } else {
      hide Lists, EmittedType;
      var here := ListType(path, s, k, i);
      var rest := ListTypes(path, s, k, i + 1);
      JoinWalks(path, s, here, (h: Hop) => h.key == k && h.ty == i, EmittedType(at, k, v, v.types[i]),
                rest, (h: Hop) => h.key == k && h.ty >= i + 1, EmittedTypes(at, k, v, i + 1), sel);
      walks := here + rest;
    }
  }

  lemma {:induction false} ListType(path: string, s: Schema, k: string, i: nat) returns (walks: seq<seq<Hop>>)
    requires k in s.props && i < |s.props[k].types|
    ensures Lists(path, s, walks, (h: Hop) => h.key == k && h.ty == i,
                  EmittedType(path + "." + k, k, s.props[k], s.props[k].types[i]))
    decreases s, 2
  {
    var v, at, sel := s.props[k], path + "." + k, (h: Hop) => h.key == k && h.ty == i;
    var t := v.types[i];
    if t == "array" && v.items.Many? {
      walks := ListItems(path, s, k, i, 0);
      Widen(path, s, walks, (h: Hop) => h.key == k && h.ty == i && h.item >= 0, sel, EmittedItems(at, v, 0));
    } else if t == "object" || (t == "array" && v.items.One?) {
      walks := ListInner(path, s, Hop(k, i, 0));
      OnlyItemZero(path, s, walks, k, i, Emitted(at, Inner(v, t, 0)));
    } else if t == "array" {
      walks := [];
      NoItemsNoWalks(path, s, k, i);
    } else {
      walks := [[Hop(k, i, 0)]];
      ScalarWalk(path, s, Hop(k, i, 0), sel);
    }
  }

  lemma NoItemsNoWalks(path: string, s: Schema, k: string, i: nat)
    requires Starts(s, Hop(k, i, 0)) && s.props[k].types[i] == "array" && s.props[k].items.NoItems?
    ensures Lists(path, s, [], (h: Hop) => h.key == k && h.ty == i, multiset{})
  {
  }

  /** Objects and arrays of one schema have item 0 only. */
  lemma OnlyItemZero(path: string, s: Schema, walks: seq<seq<Hop>>, k: string, i: nat, m: multiset<Leaf>)
    requires Starts(s, Hop(k, i, 0)) && Lists(path, s, walks, (h: Hop) => h == Hop(k, i, 0), m)
    requires var v := s.props[k]; v.types[i] == "object" || (v.types[i] == "array" && v.items.One?)
    ensures Lists(path, s, walks, (h: Hop) => h.key == k && h.ty == i, m)
  {
    forall x: seq<Hop> | Walk(s, x) && x[0].key == k && x[0].ty == i ensures x[0] == Hop(k, i, 0) {
      assert |x| > 1;
    }
  }

  lemma {:induction false} ListInner(path: string, s: Schema, hop: Hop) returns (walks: seq<seq<Hop>>)
    requires Starts(s, hop) && Leads(s.props[hop.key], s.props[hop.key].types[hop.ty], hop.item)
    ensures var v := s.props[hop.key];
            Lists(path, s, walks, (h: Hop) => h == hop,
                  Emitted(path + "." + hop.key, Inner(v, v.types[hop.ty], hop.item)))
    decreases s, 0
  {
    var v, at := s.props[hop.key], path + "." + hop.key;
    var inner := Inner(v, v.types[hop.ty], hop.item);
    var deeper := ListSchema(at, inner);
    WalksBehind(path, s, hop, deeper, (h: Hop) => h == hop, Emitted(at, inner));
    walks := Behind(hop, deeper);
  }

  lemma {:induction false} ListItems(path: string, s: Schema, k: string, i: nat, x: nat) returns (walks: seq<seq<Hop>>)
    requires Starts(s, Hop(k, i, 0)) && s.props[k].types[i] == "array" && s.props[k].items.Many?
    ensures Lists(path, s, walks, (h: Hop) => h.key == k && h.ty == i && h.item >= x,
                  EmittedItems(path + "." + k, s.props[k], x))
    decreases s, 1, |s.props[k].items.schemas| - x
  {
    var v, at := s.props[k], path + "." + k;
    var sel := (h: Hop) => h.key == k && h.ty == i && h.item >= x;
    if x >= |v.items.schemas| {
      walks := [];
      NoItemsLeft(path, s, k, i, x);
    } else {
      hide Lists, Emitted;
      var here := ListInner(path, s, Hop(k, i, x));
      var rest := ListItems(path, s, k, i, x + 1);
      JoinWalks(path, s, here, (h: Hop) => h == Hop(k, i, x), Emitted(at, v.items.schemas[x]),
                rest, (h: Hop) => h.key == k && h.ty == i && h.item >= x + 1, EmittedItems(at, v, x + 1), sel);
      walks := here + rest;
    }
  }

  lemma NoItemsLeft(path: string, s: Schema, k: string, i: nat, x: nat)
    requires Starts(s, Hop(k, i, 0)) && s.props[k].types[i] == "array" && s.props[k].items.Many?
    requires x >= |s.props[k].items.schemas|
    ensures Lists(path, s, [], (h: Hop) => h.key == k && h.ty == i && h.item >= x, multiset{})
  {
  }

  /** Main result: the rules of any schema, arrays included, correspond one to one to its walks. */
  lemma RulesAreWalks(path: string, s: Schema) returns (walks: seq<seq<Hop>>)
    ensures Distinct(walks) && forall x :: x in walks <==> Walk(s, x)
    ensures Emitted(path, s) == multiset(Leaves(path, s, walks))
  {
    walks := ListSchema(path, s);
  }
}
