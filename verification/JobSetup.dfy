/** NewExtractServer: the rules and the extensions of a job's source, put into maps by id. */
module JobSetup {
  import opened Domain
  import opened PipelineSpec
  import RowMeaning
  import SpliceDelete

  /** The elements that belong to the source, in list order. */
  function Own<T>(all: seq<T>, owner: T -> string, source: string): seq<T> {
    SpliceDelete.Keep(all, (x: T) => owner(x) != source)
  }

  /** A later element with the same id replaces an earlier one. */
  function ById<T>(own: seq<T>, key: T -> string): map<string, T> {
    if own == [] then map[]
    else
      var last := |own| - 1;
      ById(own[..last], key)[key(own[last]) := own[last]]
  }

  lemma {:induction false} OwnAppend<T>(all: seq<T>, x: T, owner: T -> string, source: string)
    ensures Own(all + [x], owner, source) == Own(all, owner, source) + if owner(x) == source then [x] else []
  {
    if all == [] {
      assert all + [x] == [x] && [x][1..] == [];
    } else {
      assert (all + [x])[1..] == all[1..] + [x];
      OwnAppend(all[1..], x, owner, source);
    }
  }

  /** The projection loop, which the source has once for the rules and once for the extensions. */
  method Project<T>(all: seq<T>, owner: T -> string, key: T -> string, source: string) returns (m: map<string, T>)
    ensures forall i :: && 0 <= i < |all| && owner(all[i]) == source
                        && (forall j :: i < j < |all| && owner(all[j]) == source ==> key(all[j]) != key(all[i])) ==>
              key(all[i]) in m && m[key(all[i])] == all[i]
    ensures forall k <- m :: exists i :: 0 <= i < |all| && owner(all[i]) == source && key(all[i]) == k
    ensures m == ById(Own(all, owner, source), key)
  {
    m := map[];
    ghost var own: seq<T> := [];
    for i := 0 to |all|
      invariant own == Own(all[..i], owner, source) && m == ById(own, key)
    {
      hide Own;
      OwnAppend(all[..i], all[i], owner, source);
      assert all[..i + 1] == all[..i] + [all[i]];
      if owner(all[i]) == source {
        own := own + [all[i]];
        assert own[..|own| - 1] == Own(all[..i], owner, source);
        m := m[key(all[i]) := all[i]];
      }
    }
    assert all[..|all|] == all;
    hide Own, ById;
    forall i: nat | && i < |all| && owner(all[i]) == source
                    && (forall j :: i < j < |all| && owner(all[j]) == source ==> key(all[j]) != key(all[i]))
      ensures key(all[i]) in m && m[key(all[i])] == all[i]
    {
      LastOfIdStays(all, owner, key, source, i);
    }
    forall k | k in m ensures exists i :: 0 <= i < |all| && owner(all[i]) == source && key(all[i]) == k {
      var i := IdHasOwner(all, owner, key, source, k);
    }
  }

  lemma ByIdMore<T>(all: seq<T>, x: T, owner: T -> string, key: T -> string, source: string)
    ensures ById(Own(all + [x], owner, source), key)
            == if owner(x) == source then ById(Own(all, owner, source), key)[key(x) := x]
               else ById(Own(all, owner, source), key)
  {
    OwnAppend(all, x, owner, source);
    hide Own;
    var own := Own(all, owner, source);
    assert own + [] == own && (own + [x])[..|own|] == own;
  }

  lemma {:induction false} LastOfIdStays<T>(all: seq<T>, owner: T -> string, key: T -> string, source: string, i: nat)
    requires i < |all| && owner(all[i]) == source
    requires forall j :: i < j < |all| && owner(all[j]) == source ==> key(all[j]) != key(all[i])
    ensures var m := ById(Own(all, owner, source), key); key(all[i]) in m && m[key(all[i])] == all[i]
  {
    hide Own, ById;
    var n := |all| - 1;
    assert all == all[..n] + [all[n]];
    ByIdMore(all[..n], all[n], owner, key, source);
    if i < n {
      LastOfIdStays(all[..n], owner, key, source, i);
    }
  }

  lemma {:induction false} IdHasOwner<T>(all: seq<T>, owner: T -> string, key: T -> string, source: string, k: string)
    returns (i: nat)
    requires k in ById(Own(all, owner, source), key)
    ensures i < |all| && owner(all[i]) == source && key(all[i]) == k
  {
    assert all != [];
    hide Own, ById;
    var n := |all| - 1;
    assert all == all[..n] + [all[n]];
    ByIdMore(all[..n], all[n], owner, key, source);
    if owner(all[n]) == source && key(all[n]) == k {
      i := n;
    } else {
      i := IdHasOwner(all[..n], owner, key, source, k);
    }
  }

  lemma {:induction false} ByIdEntries<T>(own: seq<T>, key: T -> string)
    ensures forall x <- own :: key(x) in ById(own, key)
    ensures forall k <- ById(own, key) :: ById(own, key)[k] in own && key(ById(own, key)[k]) == k
  {
    if own != [] {
      var last := |own| - 1;
      ByIdEntries(own[..last], key);
      assert own == own[..last] + [own[last]];
    }
  }

  lemma UniqueFillsMap<T(!new)>(own: seq<T>, key: T -> string)
    requires UniqueBy(own, key)
    ensures multiset(ById(own, key).Values) == multiset(own)
  {
    ByIdEntries(own, key);
    forall x | x in own ensures x in ById(own, key).Values {
      var i :| 0 <= i < |own| && own[i] == x;
      var y := ById(own, key)[key(x)];
      var j :| 0 <= j < |own| && own[j] == y;
    }
    assert ById(own, key).Values == set x <- own;
    assert Distinct(own);
    RowMeaning.DistinctSeqToSet(own);
  }

  lemma SetHasNoDoubles<T>(values: set<T>, own: seq<T>)
    requires multiset(values) == multiset(own)
    ensures Distinct(own)
  {
    forall i, j | 0 <= i < j < |own| ensures own[i] != own[j] {
      if own[i] == own[j] {
        RowMeaning.CountsTwice(own, i, j);
      }
    }
  }

  lemma FullMapIsUnique<T(!new)>(own: seq<T>, key: T -> string)
    requires multiset(ById(own, key).Values) == multiset(own)
    ensures UniqueBy(own, key)
  {
    var m := ById(own, key);
    ByIdEntries(own, key);
    SetHasNoDoubles(m.Values, own);
    forall x <- own ensures m[key(x)] == x {
      assert x in multiset(m.Values);
      var k :| k in m && m[k] == x;
    }
    assert forall i :: 0 <= i < |own| ==> own[i] in own;
  }

  /** The map holds exactly the source's own elements if and only if their ids are distinct. */
  lemma NothingIsLost<T(!new)>(own: seq<T>, key: T -> string)
    ensures multiset(ById(own, key).Values) == multiset(own) <==> UniqueBy(own, key)
  {
    if UniqueBy(own, key) {
      UniqueFillsMap(own, key);
    }
    if multiset(ById(own, key).Values) == multiset(own) {
      FullMapIsUnique(own, key);
    }
  }

  lemma OwnKeepsUnique<T(!new)>(all: seq<T>, owner: T -> string, key: T -> string, source: string)
    requires UniqueBy(all, key)
    ensures UniqueBy(Own(all, owner, source), key)
  {
    KeepUnique(all, key, (x: T) => owner(x) != source);
  }

  /** Every version of the resource that the editors can commit hands a job all rules of its
      source, none twice. Extensions, whose ids are not unique, have no such guarantee. */
  lemma JobGetsItsRules(spec: Spec, source: string)
    requires SpecInv(spec)
    ensures multiset(ById(Own(spec.rules, (r: Rule) => r.sourceId, source), RuleId).Values)
            == multiset(Own(spec.rules, (r: Rule) => r.sourceId, source))
  {
    OwnKeepsUnique(spec.rules, (r: Rule) => r.sourceId, RuleId, source);
    UniqueFillsMap(Own(spec.rules, (r: Rule) => r.sourceId, source), RuleId);
  }
}
