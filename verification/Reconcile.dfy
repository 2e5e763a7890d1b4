/** The operator's create-what-is-missing groups. A pass lists the objects the pipeline owns,
    works out which expected names are missing and creates them in a fixed order until the first
    error; the pass itself goes on with the next group. Lists may fail or be stale, creates may
    fail, and objects of an expected name may exist that the pipeline does not own. */
module Reconcile {

  datatype Kind = Role | RoleBinding | ServiceAccount | Service | Secret

  datatype Key = Key(kind: Kind, name: string)

  const CLIENT_SECRET := "cockroachdb.client.root"
  const NODE_SECRET := "cockroachdb.node"
  const GRPC_SECRET := "churro.client.root"

  function Expected(kind: Kind): seq<string> {
    match kind
    case Service => ["churro-ctl", "churro-extractsource", "cockroachdb", "cockroachdb-public"]
    case Secret => [CLIENT_SECRET, NODE_SECRET, GRPC_SECRET]
    case _ => ["churro", "cockroachdb"]
  }

  /** What the API server does to one group of one pass. */
  datatype Env = Env(listFails: bool, listed: set<string>, faults: nat -> bool)

  /** What the secrets group finds: the image pull secret's name (empty when the environment
      variable is unset), the secrets of churro's own namespace, and the credentials on the CR. */
  datatype SecretInputs = SecretInputs(pullName: string, available: set<string>, nodeCreds: bool, serviceCreds: bool)

  class Cluster {
    var owned: set<Key>
    const foreign: set<Key>

    constructor (owned: set<Key>, foreign: set<Key>)
      ensures this.owned == owned && this.foreign == foreign
    {
      this.owned, this.foreign := owned, foreign;
    }

    /** Atomic create-if-absent. */
    method Create(k: Key, fault: bool) returns (ok: bool)
      modifies this
      ensures ok <==> !fault && k !in old(owned) && k !in foreign
      ensures owned == if ok then old(owned) + {k} else old(owned)
    {
      ok := !fault && k !in owned && k !in foreign;
      if ok {
        owned := owned + {k};
      }
    }
  }

  /** The create loop from attempt i on. */
  function CreateAll(owned: set<Key>, foreign: set<Key>, kind: Kind, todo: seq<string>, faults: nat -> bool,
      i: nat): (set<Key>, bool)
    requires i <= |todo|
    decreases |todo| - i
  {
    if i == |todo| then (owned, true)
    else
      var k := Key(kind, todo[i]);
      if faults(i) || k in owned || k in foreign then (owned, false)
      else CreateAll(owned + {k}, foreign, kind, todo, faults, i + 1)
  }

  /** The expected names that are not listed, in order. */
  function Missing(expected: seq<string>, listed: set<string>): (todo: seq<string>)
    ensures forall n :: n in todo <==> n in expected && n !in listed
  {
    if expected == [] then []
    else
      var last := |expected| - 1;
      assert expected == expected[..last] + [expected[last]];
      Missing(expected[..last], listed) + if expected[last] in listed then [] else [expected[last]]
  }

  function GroupPass(owned: set<Key>, foreign: set<Key>, kind: Kind, env: Env): (set<Key>, bool) {
    if env.listFails then (owned, false)
    else CreateAll(owned, foreign, kind, Missing(Expected(kind), env.listed), env.faults, 0)
  }

  /** The names the secrets group creates, in order, once all their inputs are there. The list is
      built before the first create, so a missing input means that nothing is created at all. */
  function SecretsTodo(inputs: SecretInputs, listed: set<string>): (todo: seq<string>) {
    Missing(Expected(Secret), listed) + if NeedsPull(inputs, listed) then [inputs.pullName] else []
  }

  /** The pull secret's case comes last in the switch, so a reserved name never clears its flag. */
  predicate NeedsPull(inputs: SecretInputs, listed: set<string>) {
    inputs.pullName !in listed || inputs.pullName in Expected(Secret)
  }

  predicate SecretsBuildable(inputs: SecretInputs, listed: set<string>) {
    && (NODE_SECRET in listed || inputs.nodeCreds)
    && (GRPC_SECRET in listed || inputs.serviceCreds)
    && (NeedsPull(inputs, listed) ==> inputs.pullName in inputs.available)
  }

  function SecretsPass(owned: set<Key>, foreign: set<Key>, inputs: SecretInputs, env: Env): (set<Key>, bool) {
    if env.listFails || !SecretsBuildable(inputs, env.listed) then (owned, false)
    else CreateAll(owned, foreign, Secret, SecretsTodo(inputs, env.listed), env.faults, 0)
  }

  // ---- the groups as they are written ----

  method CreateLoop(cluster: Cluster, kind: Kind, todo: seq<string>, faults: nat -> bool) returns (ok: bool)
    modifies cluster
    ensures (cluster.owned, ok) == CreateAll(old(cluster.owned), cluster.foreign, kind, todo, faults, 0)
  {
    var i := 0;
    while i < |todo|
      invariant i <= |todo|
      invariant CreateAll(old(cluster.owned), cluster.foreign, kind, todo, faults, 0)
             == CreateAll(cluster.owned, cluster.foreign, kind, todo, faults, i)
    {
      var created := cluster.Create(Key(kind, todo[i]), faults(i));
      if !created {
        return false;
      }
      i := i + 1;
    }
    return true;
  }

  /** The scan of the children clears one flag per expected name. */
  method ScanChildren(expected: seq<string>, children: seq<string>) returns (need: array<bool>)
    ensures need.Length == |expected| && fresh(need)
    ensures forall e :: 0 <= e < |expected| ==> (need[e] <==> expected[e] !in children)
  {
    need := new bool[|expected|](_ => true);
    for i := 0 to |children|
      invariant fresh(need) && need.Length == |expected|
      invariant forall e :: 0 <= e < |expected| ==> (need[e] <==> expected[e] !in children[..i])
    {
      assert children[..i + 1] == children[..i] + [children[i]];
      for e := 0 to |expected|
        modifies need
        invariant forall f :: 0 <= f < e ==> (need[f] <==> expected[f] !in children[..i + 1])
        invariant forall f :: e <= f < |expected| ==> (need[f] <==> expected[f] !in children[..i])
      {
        if children[i] == expected[e] {
          need[e] := false;
        }
      }
    }
    assert children[..|children|] == children;
  }

  /** The names whose flag is still up, in the fixed order. */
  method CollectNeeded(expected: seq<string>, need: array<bool>, listed: set<string>) returns (todo: seq<string>)
    requires need.Length == |expected|
    requires forall e :: 0 <= e < |expected| ==> (need[e] <==> expected[e] !in listed)
    ensures todo == Missing(expected, listed)
  {
    todo := [];
    for e := 0 to |expected|
      invariant todo == Missing(expected[..e], listed)
    {
      assert expected[..e + 1][..e] == expected[..e];
      if need[e] {
        todo := todo + [expected[e]];
      }
    }
    assert expected[..|expected|] == expected;
  }

  /** processRoles, processRoleBindings, processServiceAccounts and processServices. */
  method ProcessGroup(cluster: Cluster, kind: Kind, children: seq<string>, env: Env) returns (ok: bool)
    requires kind != Secret && env.listed == set n <- children
    modifies cluster
    ensures (cluster.owned, ok) == GroupPass(old(cluster.owned), cluster.foreign, kind, env)
  {
    if env.listFails {
      return false;
    }
    hide Missing, CreateAll, Expected;
    var expected := Expected(kind);
    var need := ScanChildren(expected, children);
    var todo := CollectNeeded(expected, need, env.listed);
    ok := CreateLoop(cluster, kind, todo, env.faults);
  }

  /** One switch per child: the first case that names it clears its flag. */
  method ScanSecrets(pullName: string, children: seq<string>)
    returns (needClient: bool, needNode: bool, needGrpc: bool, needPull: bool)
    ensures needClient <==> CLIENT_SECRET !in children
    ensures needNode <==> NODE_SECRET !in children
    ensures needGrpc <==> GRPC_SECRET !in children
    ensures needPull <==> pullName !in children || pullName in {CLIENT_SECRET, NODE_SECRET, GRPC_SECRET}
  {
    needClient, needNode, needGrpc, needPull := true, true, true, true;
    ReservedApart();
    for i := 0 to |children|
      invariant needClient <==> CLIENT_SECRET !in children[..i]
      invariant needNode <==> NODE_SECRET !in children[..i]
      invariant needGrpc <==> GRPC_SECRET !in children[..i]
      invariant needPull <==> pullName !in children[..i] || pullName in {CLIENT_SECRET, NODE_SECRET, GRPC_SECRET}
    {
      assert children[..i + 1] == children[..i] + [children[i]];
      var name := children[i];
      if name == CLIENT_SECRET {
        needClient := false;
      } else if name == NODE_SECRET {
        needNode := false;
      } else if name == GRPC_SECRET {
        needGrpc := false;
      } else if name == pullName {
        needPull := false;
      }
    }
    assert children[..|children|] == children;
  }

  lemma ReservedApart()
    ensures CLIENT_SECRET != NODE_SECRET && CLIENT_SECRET != GRPC_SECRET && NODE_SECRET != GRPC_SECRET
  {
    assert |CLIENT_SECRET| == 23 && |NODE_SECRET| == 16 && |GRPC_SECRET| == 18;
  }

  function When(c: bool, name: string): seq<string> {
    if c then [name] else []
  }

  /** The list of secrets to create. An error of the client credentials is ignored; one of the
      other two ends the group, as does a pull secret that cannot be read. */
  method SecretsList(inputs: SecretInputs, needClient: bool, needNode: bool, needGrpc: bool, needPull: bool)
    returns (todo: seq<string>, ok: bool)
    ensures ok <==> (!needNode || inputs.nodeCreds) && (!needGrpc || inputs.serviceCreds)
                    && (needPull ==> inputs.pullName in inputs.available)
    ensures ok ==> todo == When(needClient, CLIENT_SECRET) + When(needNode, NODE_SECRET) + When(needGrpc, GRPC_SECRET)
                           + When(needPull, inputs.pullName)
  {
    todo := [];
    if needClient {
      todo := todo + [CLIENT_SECRET];
    }
    if needNode {
      if !inputs.nodeCreds {
        return todo, false;
      }
      todo := todo + [NODE_SECRET];
    }
    if needGrpc {
      if !inputs.serviceCreds {
        return todo, false;
      }
      todo := todo + [GRPC_SECRET];
    }
    if needPull {
      if inputs.pullName !in inputs.available {
        return todo, false;
      }
      todo := todo + [inputs.pullName];
    }
    ok := true;
  }

  method ProcessSecrets(cluster: Cluster, inputs: SecretInputs, children: seq<string>, env: Env) returns (ok: bool)
    requires env.listed == set n <- children
    modifies cluster
    ensures (cluster.owned, ok) == SecretsPass(old(cluster.owned), cluster.foreign, inputs, env)
  {
    if env.listFails {
      return false;
    }
    hide CreateAll, Missing;
    var needClient, needNode, needGrpc, needPull := ScanSecrets(inputs.pullName, children);
    var todo, buildable := SecretsList(inputs, needClient, needNode, needGrpc, needPull);
    if !buildable {
      return false;
    }
    MissingThree(CLIENT_SECRET, NODE_SECRET, GRPC_SECRET, env.listed);
    ok := CreateLoop(cluster, Secret, todo, env.faults);
  }

  lemma MissingThree(a: string, b: string, c: string, listed: set<string>)
    ensures Missing([a, b, c], listed)
            == (if a in listed then [] else [a]) + (if b in listed then [] else [b]) + (if c in listed then [] else [c])
  {
    assert [a][..0] == [] && Missing([a], listed) == if a in listed then [] else [a];
    assert [a, b][..1] == [a] && Missing([a, b], listed) == Missing([a], listed) + if b in listed then [] else [b];
    assert [a, b, c][..2] == [a, b];
  }

  // ---- the names themselves, in the order in which they are created ----

  function Unless(listed: set<string>, name: string): seq<string> {
    if name in listed then [] else [name]
  }

  lemma MissingTwo(a: string, b: string, listed: set<string>)
    ensures Missing([a, b], listed) == Unless(listed, a) + Unless(listed, b)
  {
    assert [a][..0] == [] && [a, b][..1] == [a];
    assert Missing([a], listed) == Unless(listed, a);
  }

  lemma MissingFour(a: string, b: string, c: string, d: string, listed: set<string>)
    ensures Missing([a, b, c, d], listed)
            == Unless(listed, a) + Unless(listed, b) + Unless(listed, c) + Unless(listed, d)
  {
    assert [a, b, c, d][..3] == [a, b, c];
    MissingThree(a, b, c, listed);
  }

  /** What a group sets out to create, name by name. */
  lemma GroupTodo(listed: set<string>)
    ensures forall kind <- {Role, RoleBinding, ServiceAccount} ::
              Missing(Expected(kind), listed)
              == (if "churro" in listed then [] else ["churro"])
                 + (if "cockroachdb" in listed then [] else ["cockroachdb"])
    ensures Missing(Expected(Service), listed)
            == (if "churro-ctl" in listed then [] else ["churro-ctl"])
               + (if "churro-extractsource" in listed then [] else ["churro-extractsource"])
               + (if "cockroachdb" in listed then [] else ["cockroachdb"])
               + (if "cockroachdb-public" in listed then [] else ["cockroachdb-public"])
  {
    MissingTwo("churro", "cockroachdb", listed);
    MissingFour("churro-ctl", "churro-extractsource", "cockroachdb", "cockroachdb-public", listed);
    hide Missing;
  }

  /** The pull secret comes last, and again when it bears the name of one of the three. */
  lemma SecretsTodoExactly(inputs: SecretInputs, listed: set<string>)
    ensures var pull := inputs.pullName;
            SecretsTodo(inputs, listed)
            == (if "cockroachdb.client.root" in listed then [] else ["cockroachdb.client.root"])
               + (if "cockroachdb.node" in listed then [] else ["cockroachdb.node"])
               + (if "churro.client.root" in listed then [] else ["churro.client.root"])
               + (if pull in listed && pull !in ["cockroachdb.client.root", "cockroachdb.node", "churro.client.root"]
                  then [] else [pull])
    ensures SecretsBuildable(inputs, listed)
            <==> && ("cockroachdb.node" in listed || inputs.nodeCreds)
                 && ("churro.client.root" in listed || inputs.serviceCreds)
                 && (inputs.pullName in inputs.available
                     || (inputs.pullName in listed
                         && inputs.pullName !in ["cockroachdb.client.root", "cockroachdb.node", "churro.client.root"]))
  {
    MissingThree("cockroachdb.client.root", "cockroachdb.node", "churro.client.root", listed);
    hide Missing;
  }

  // ---- one create loop ----

  function Keys(kind: Kind, names: seq<string>): set<Key> {
    set n <- names :: Key(kind, n)
  }

  predicate Blocked(owned: set<Key>, foreign: set<Key>, kind: Kind, todo: seq<string>, faults: nat -> bool, k: nat)
    requires k < |todo|
  {
    faults(k) || Key(kind, todo[k]) in owned || Key(kind, todo[k]) in foreign
  }

  /** The loop creates everything before the first blocked attempt, and nothing else. */
  lemma {:induction false} CreateAllShape(owned: set<Key>, foreign: set<Key>, kind: Kind, todo: seq<string>,
      faults: nat -> bool, i: nat)
    returns (j: nat)
    requires i <= |todo| && forall a, b :: i <= a < b < |todo| ==> todo[a] != todo[b]
    ensures i <= j <= |todo|
    ensures CreateAll(owned, foreign, kind, todo, faults, i) == (owned + Keys(kind, todo[i..j]), j == |todo|)
    ensures forall k :: i <= k < j ==> !Blocked(owned, foreign, kind, todo, faults, k)
    ensures j < |todo| ==> Blocked(owned, foreign, kind, todo, faults, j)
    decreases |todo| - i
  {
    if i == |todo| || Blocked(owned, foreign, kind, todo, faults, i) {
      j := i;
      assert todo[i..j] == [];
      assert owned + Keys(kind, todo[i..j]) == owned;
    } else {
      var k := Key(kind, todo[i]);
      j := CreateAllShape(owned + {k}, foreign, kind, todo, faults, i + 1);
      assert todo[i..j] == [todo[i]] + todo[i + 1..j];
      assert owned + Keys(kind, todo[i..j]) == owned + {k} + Keys(kind, todo[i + 1..j]);
      forall l | i <= l < j ensures !Blocked(owned, foreign, kind, todo, faults, l) {
        assert l > i ==> !Blocked(owned + {k}, foreign, kind, todo, faults, l);
      }
      assert j < |todo| ==> Key(kind, todo[j]) != k;
    }
  }

  lemma CreatedIsNotForeign(owned: set<Key>, foreign: set<Key>, kind: Kind, todo: seq<string>, faults: nat -> bool,
                            j: nat)
    requires j <= |todo| && forall k :: 0 <= k < j ==> !Blocked(owned, foreign, kind, todo, faults, k)
    ensures Keys(kind, todo[..j]) !! foreign
  {
    forall n <- todo[..j] ensures Key(kind, n) !in foreign {
      var k :| 0 <= k < j && todo[k] == n;
      assert !Blocked(owned, foreign, kind, todo, faults, k);
    }
  }

  lemma {:induction false} MissingDistinct(expected: seq<string>, listed: set<string>)
    requires forall a, b :: 0 <= a < b < |expected| ==> expected[a] != expected[b]
    ensures forall a, b :: 0 <= a < b < |Missing(expected, listed)| ==>
              Missing(expected, listed)[a] != Missing(expected, listed)[b]
  {
    if expected != [] {
      var last := |expected| - 1;
      MissingDistinct(expected[..last], listed);
    }
  }

  // ---- one pass over one group ----

  function Listed(owned: set<Key>, kind: Kind): set<string> {
    set k <- owned | k.kind == kind :: k.name
  }

  /** The list is current and nothing fails; a group has at most five creates. */
  predicate Clean(owned: set<Key>, kind: Kind, env: Env) {
    !env.listFails && env.listed == Listed(owned, kind) && forall i :: 0 <= i < 5 ==> !env.faults(i)
  }

  ghost predicate Complete(owned: set<Key>, kind: Kind) {
    Keys(kind, Expected(kind)) <= owned
  }

  lemma ExpectedDistinct(kind: Kind)
    ensures forall a, b :: 0 <= a < b < |Expected(kind)| ==> Expected(kind)[a] != Expected(kind)[b]
    ensures |Expected(kind)| <= 4
  {
    assert "churro-ctl"[7] != "churro-extractsource"[7] && "cockroachdb"[1] != "churro-ctl"[1];
    assert |"churro"| != |"cockroachdb"| && |"cockroachdb"| != |"cockroachdb-public"|;
    assert |CLIENT_SECRET| == 23 && |NODE_SECRET| == 16 && |GRPC_SECRET| == 18;
  }

  lemma {:induction false} MissingShort(expected: seq<string>, listed: set<string>)
    ensures |Missing(expected, listed)| <= |expected|
  {
    if expected != [] {
      MissingShort(expected[..|expected| - 1], listed);
    }
  }

  /** No pass removes an object or adds one outside its group; on a complete group it creates
      nothing, however stale its list. */
  lemma GroupPassIsSafe(owned: set<Key>, foreign: set<Key>, kind: Kind, env: Env)
    ensures var after := GroupPass(owned, foreign, kind, env).0;
            && owned <= after <= owned + Keys(kind, Expected(kind))
            && (owned !! foreign ==> after !! foreign)
            && (Complete(owned, kind) ==> after == owned)
  {
    var todo := Missing(Expected(kind), env.listed);
    ExpectedDistinct(kind);
    MissingDistinct(Expected(kind), env.listed);
    var j := CreateAllShape(owned, foreign, kind, todo, env.faults, 0);
    CreatedIsNotForeign(owned, foreign, kind, todo, env.faults, j);
    assert forall n <- todo[..j] :: n in todo;
    hide CreateAll, Missing, Expected;
    if Complete(owned, kind) {
      assert todo != [] ==> todo[0] in Expected(kind) && Key(kind, todo[0]) in owned;
      assert todo != [] ==> Blocked(owned, foreign, kind, todo, env.faults, 0);
      assert j == 0 && todo[..j] == [];
    }
  }

  /** A loop without faults over absent names succeeds exactly when nobody else holds one. */
  lemma FaultlessLoop(owned: set<Key>, foreign: set<Key>, kind: Kind, todo: seq<string>, faults: nat -> bool)
    requires forall a, b :: 0 <= a < b < |todo| ==> todo[a] != todo[b]
    requires forall k :: 0 <= k < |todo| ==> !faults(k) && Key(kind, todo[k]) !in owned
    ensures var (after, ok) := CreateAll(owned, foreign, kind, todo, faults, 0);
            && (ok <==> Keys(kind, todo) !! foreign)
            && (ok ==> after == owned + Keys(kind, todo))
            && (!ok ==> exists n <- todo :: Key(kind, n) in foreign && Key(kind, n) !in after)
  {
    var j := CreateAllShape(owned, foreign, kind, todo, faults, 0);
    if j == |todo| {
      assert todo[0..j] == todo;
      forall n <- todo ensures Key(kind, n) !in foreign {
        var k :| 0 <= k < |todo| && todo[k] == n;
        assert !Blocked(owned, foreign, kind, todo, faults, k);
      }
    } else {
      assert todo[j] in todo && Key(kind, todo[j]) in foreign;
      assert forall n <- todo[0..j] :: n != todo[j];
    }
  }

  /** From any state, a pass with a current list and no failed create completes its group
      exactly when no object outside the owner's list holds an expected name; and it reports an
      error exactly when it does not. */
  lemma CleanPassCompletes(owned: set<Key>, foreign: set<Key>, kind: Kind, env: Env)
    requires Clean(owned, kind, env) && owned !! foreign
    ensures var (after, ok) := GroupPass(owned, foreign, kind, env);
            (Complete(after, kind) <==> Keys(kind, Expected(kind)) !! foreign) && (ok <==> Complete(after, kind))
  {
    var todo := Missing(Expected(kind), env.listed);
    ExpectedDistinct(kind);
    MissingDistinct(Expected(kind), env.listed);
    MissingShort(Expected(kind), env.listed);
    forall k | 0 <= k < |todo| ensures !env.faults(k) && Key(kind, todo[k]) !in owned {
      assert todo[k] in todo;
    }
    FaultlessLoop(owned, foreign, kind, todo, env.faults);
    hide CreateAll, Missing;
    assert forall n <- Expected(kind) :: n in todo || Key(kind, n) in owned;
    assert forall n <- todo :: n in Expected(kind);
    assert Keys(kind, Expected(kind)) !! foreign <==> Keys(kind, todo) !! foreign;
  }

  // ---- the secrets group ----

  /** All three fixed secrets and the pull secret's copy. */
  ghost predicate SecretsComplete(owned: set<Key>, inputs: SecretInputs) {
    Complete(owned, Secret) && Key(Secret, inputs.pullName) in owned
  }

  function SecretKeys(inputs: SecretInputs): set<Key> {
    Keys(Secret, Expected(Secret)) + {Key(Secret, inputs.pullName)}
  }

  /** The list names each missing secret of the group once. */
  lemma SecretsTodoShape(inputs: SecretInputs, listed: set<string>)
    requires inputs.pullName !in Expected(Secret)
    ensures var todo := SecretsTodo(inputs, listed);
            && |todo| <= 5
            && (forall a, b :: 0 <= a < b < |todo| ==> todo[a] != todo[b])
            && forall n :: n in todo <==> (n in Expected(Secret) || n == inputs.pullName) && n !in listed
  {
    ExpectedDistinct(Secret);
    MissingDistinct(Expected(Secret), listed);
    MissingShort(Expected(Secret), listed);
    hide Missing, Expected;
    var fixed := Missing(Expected(Secret), listed);
    forall a | 0 <= a < |fixed| ensures fixed[a] != inputs.pullName {
      assert fixed[a] in fixed;
    }
  }

  /** Nothing is removed, nothing foreign to the group is added, and a missing input stops the
      whole group before its first create. */
  lemma SecretsPassIsSafe(owned: set<Key>, foreign: set<Key>, inputs: SecretInputs, env: Env)
    requires inputs.pullName !in Expected(Secret)
    ensures var after := SecretsPass(owned, foreign, inputs, env).0;
            && owned <= after <= owned + SecretKeys(inputs)
            && (owned !! foreign ==> after !! foreign)
            && (SecretsComplete(owned, inputs) ==> after == owned)
            && (!SecretsBuildable(inputs, env.listed) ==> after == owned)
  {
    hide CreateAll, Missing, Expected;
    var todo := SecretsTodo(inputs, env.listed);
    SecretsTodoShape(inputs, env.listed);
    var j := CreateAllShape(owned, foreign, Secret, todo, env.faults, 0);
    CreatedIsNotForeign(owned, foreign, Secret, todo, env.faults, j);
    assert forall n <- todo[..j] :: n in todo;
    if SecretsComplete(owned, inputs) {
      assert todo != [] ==> Key(Secret, todo[0]) in owned by {
        if todo != [] { assert todo[0] in todo && (todo[0] in Expected(Secret) || todo[0] == inputs.pullName); }
      }
      assert todo != [] ==> Blocked(owned, foreign, Secret, todo, env.faults, 0);
      assert j == 0 && todo[..j] == [];
    }
  }

  /** From any state, a clean pass ends with every secret in place exactly when each missing
      secret can be built and no missing name is held by somebody else. */
  lemma CleanSecretsPassCompletes(owned: set<Key>, foreign: set<Key>, inputs: SecretInputs, env: Env)
    requires Clean(owned, Secret, env) && owned !! foreign && inputs.pullName !in Expected(Secret)
    ensures var (after, ok) := SecretsPass(owned, foreign, inputs, env);
            && (SecretsComplete(after, inputs)
                <==> SecretsBuildable(inputs, env.listed) && SecretKeys(inputs) !! foreign)
            && (ok <==> SecretsComplete(after, inputs))
  {
    hide CreateAll, Missing;
    var todo := SecretsTodo(inputs, env.listed);
    SecretsTodoShape(inputs, env.listed);
    assert NODE_SECRET in Expected(Secret) && GRPC_SECRET in Expected(Secret);
    hide Expected;
    forall k | 0 <= k < |todo| ensures !env.faults(k) && Key(Secret, todo[k]) !in owned {
      assert todo[k] in todo && todo[k] !in env.listed;
    }
    FaultlessLoop(owned, foreign, Secret, todo, env.faults);
    assert forall n <- Expected(Secret) :: n in todo || Key(Secret, n) in owned;
    assert inputs.pullName in todo || Key(Secret, inputs.pullName) in owned;
    assert SecretKeys(inputs) !! foreign <==> Keys(Secret, todo) !! foreign;
    if !SecretsBuildable(inputs, env.listed) {
      assert !SecretsComplete(owned, inputs);
    }
  }

  // ---- one pass over all groups ----

  function GroupKeys(kind: Kind, inputs: SecretInputs): set<Key> {
    if kind == Secret then SecretKeys(inputs) else Keys(kind, Expected(kind))
  }

  function RunGroup(owned: set<Key>, foreign: set<Key>, kind: Kind, inputs: SecretInputs, env: Env): set<Key> {
    if kind == Secret then SecretsPass(owned, foreign, inputs, env).0 else GroupPass(owned, foreign, kind, env).0
  }

  lemma RunGroupIsSafe(owned: set<Key>, foreign: set<Key>, kind: Kind, inputs: SecretInputs, env: Env)
    requires inputs.pullName !in Expected(Secret)
    ensures var after := RunGroup(owned, foreign, kind, inputs, env);
            && owned <= after <= owned + GroupKeys(kind, inputs)
            && (owned !! foreign ==> after !! foreign)
            && (GroupKeys(kind, inputs) <= owned ==> after == owned)
            && forall other: Kind :: other != kind ==> Listed(after, other) == Listed(owned, other)
  {
    if kind == Secret {
      SecretsPassIsSafe(owned, foreign, inputs, env);
    } else {
      GroupPassIsSafe(owned, foreign, kind, env);
    }
    hide GroupPass, SecretsPass, Expected;
    assert forall k <- GroupKeys(kind, inputs) :: k.kind == kind;
  }

  /** Nobody else holds a name of the group, and its inputs are there. */
  predicate Creatable(kind: Kind, foreign: set<Key>, inputs: SecretInputs) {
    && GroupKeys(kind, inputs) !! foreign
    && (kind == Secret ==> inputs.pullName in inputs.available && inputs.nodeCreds && inputs.serviceCreds)
  }

  lemma RunGroupCompletes(owned: set<Key>, foreign: set<Key>, kind: Kind, inputs: SecretInputs, env: Env)
    requires inputs.pullName !in Expected(Secret) && owned !! foreign
    requires Clean(owned, kind, env) && Creatable(kind, foreign, inputs)
    ensures GroupKeys(kind, inputs) <= RunGroup(owned, foreign, kind, inputs, env)
  {
    if kind == Secret {
      CleanSecretsPassCompletes(owned, foreign, inputs, env);
    } else {
      CleanPassCompletes(owned, foreign, kind, env);
    }
    hide GroupPass, SecretsPass;
  }

  /** The order of processPipeline. Errors of a group are logged and the pass goes on. */
  const GROUPS: seq<Kind> := [Role, RoleBinding, ServiceAccount, Service, Secret]

  /** The state behind the first n groups of a pass; `env` is what the API server does to each. */
  function Through(owned: set<Key>, foreign: set<Key>, inputs: SecretInputs, env: Kind -> Env, n: nat): set<Key>
    requires n <= |GROUPS|
  {
    if n == 0 then owned
    else RunGroup(Through(owned, foreign, inputs, env, n - 1), foreign, GROUPS[n - 1], inputs, env(GROUPS[n - 1]))
  }

  function Pass(owned: set<Key>, foreign: set<Key>, inputs: SecretInputs, env: Kind -> Env): set<Key> {
    Through(owned, foreign, inputs, env, |GROUPS|)
  }

  lemma {:induction false} ThroughIsSafe(owned: set<Key>, foreign: set<Key>, inputs: SecretInputs, env: Kind -> Env,
                                         n: nat)
    requires inputs.pullName !in Expected(Secret) && n <= |GROUPS|
    ensures var after := Through(owned, foreign, inputs, env, n);
            && owned <= after
            && (owned !! foreign ==> after !! foreign)
            && (AllComplete(owned, inputs) ==> after == owned)
            && forall kind: Kind :: kind !in GROUPS[..n] ==> Listed(after, kind) == Listed(owned, kind)
  {
    if n > 0 {
      ThroughIsSafe(owned, foreign, inputs, env, n - 1);
      RunGroupIsSafe(Through(owned, foreign, inputs, env, n - 1), foreign, GROUPS[n - 1], inputs, env(GROUPS[n - 1]));
      hide RunGroup, GroupKeys, Expected, Listed;
      assert GROUPS[..n] == GROUPS[..n - 1] + [GROUPS[n - 1]];
    }
  }

  ghost predicate AllComplete(owned: set<Key>, inputs: SecretInputs) {
    forall kind: Kind :: GroupKeys(kind, inputs) <= owned
  }

  /** No pass removes an object or takes over a foreign one, and on a complete cluster a pass
      changes nothing. */
  lemma PassIsSafe(owned: set<Key>, foreign: set<Key>, inputs: SecretInputs, env: Kind -> Env)
    requires inputs.pullName !in Expected(Secret)
    ensures owned <= Pass(owned, foreign, inputs, env)
    ensures owned !! foreign ==> Pass(owned, foreign, inputs, env) !! foreign
    ensures AllComplete(owned, inputs) ==> Pass(owned, foreign, inputs, env) == owned
  {
    ThroughIsSafe(owned, foreign, inputs, env, |GROUPS|);
  }

  lemma PlaceOf(kind: Kind) returns (n: nat)
    ensures n < |GROUPS| && GROUPS[n] == kind && kind !in GROUPS[..n]
  {
    match kind
    case Role => n := 0;
    case RoleBinding => n := 1;
    case ServiceAccount => n := 2;
    case Service => n := 3;
    case Secret => n := 4;
  }

  lemma {:induction false} ThroughGrows(owned: set<Key>, foreign: set<Key>, inputs: SecretInputs, env: Kind -> Env,
                                        m: nat, n: nat)
    requires inputs.pullName !in Expected(Secret) && m <= n <= |GROUPS|
    ensures Through(owned, foreign, inputs, env, m) <= Through(owned, foreign, inputs, env, n)
    decreases n
  {
    if m < n {
      ThroughGrows(owned, foreign, inputs, env, m, n - 1);
      RunGroupIsSafe(Through(owned, foreign, inputs, env, n - 1), foreign, GROUPS[n - 1], inputs, env(GROUPS[n - 1]));
    }
  }

  /** A pass that is undisturbed in one group completes that group, whatever happens in the others. */
  lemma CleanGroupCompletes(owned: set<Key>, foreign: set<Key>, inputs: SecretInputs, env: Kind -> Env, kind: Kind)
    requires inputs.pullName !in Expected(Secret) && owned !! foreign
    requires Clean(owned, kind, env(kind)) && Creatable(kind, foreign, inputs)
    ensures GroupKeys(kind, inputs) <= Pass(owned, foreign, inputs, env)
  {
    var n := PlaceOf(kind);
    var before := Through(owned, foreign, inputs, env, n);
    ThroughIsSafe(owned, foreign, inputs, env, n);
    RunGroupCompletes(before, foreign, kind, inputs, env(kind));
    ThroughGrows(owned, foreign, inputs, env, n + 1, |GROUPS|);
    hide RunGroup, GroupKeys, Expected;
    assert Through(owned, foreign, inputs, env, n + 1) == RunGroup(before, foreign, kind, inputs, env(kind));
  }

  lemma OwnsAll(owned: set<Key>, kind: Kind, names: seq<string>)
    ensures Keys(kind, names) <= owned <==> forall i :: 0 <= i < |names| ==> Key(kind, names[i]) in owned
  {
    forall i | 0 <= i < |names| ensures Key(kind, names[i]) in Keys(kind, names) {
      assert names[i] in names;
    }
  }

  lemma GroupOwns(owned: set<Key>, inputs: SecretInputs)
    ensures forall kind <- {Role, RoleBinding, ServiceAccount} ::
              GroupKeys(kind, inputs) <= owned <==> Key(kind, "churro") in owned && Key(kind, "cockroachdb") in owned
    ensures GroupKeys(Service, inputs) <= owned
            <==> && Key(Service, "churro-ctl") in owned && Key(Service, "churro-extractsource") in owned
                 && Key(Service, "cockroachdb") in owned && Key(Service, "cockroachdb-public") in owned
  {
    hide Keys;
    var names := ["churro", "cockroachdb"];
    assert names[0] == "churro" && names[1] == "cockroachdb";
    forall kind <- {Role, RoleBinding, ServiceAccount}
      ensures GroupKeys(kind, inputs) <= owned <==> Key(kind, "churro") in owned && Key(kind, "cockroachdb") in owned
    {
      OwnsAll(owned, kind, names);
    }
    var services := ["churro-ctl", "churro-extractsource", "cockroachdb", "cockroachdb-public"];
    assert services[0] == "churro-ctl" && services[1] == "churro-extractsource";
    assert services[2] == "cockroachdb" && services[3] == "cockroachdb-public";
    OwnsAll(owned, Service, services);
  }

  lemma SecretsOwn(owned: set<Key>, inputs: SecretInputs)
    ensures GroupKeys(Secret, inputs) <= owned
            <==> && Key(Secret, "cockroachdb.client.root") in owned && Key(Secret, "cockroachdb.node") in owned
                 && Key(Secret, "churro.client.root") in owned && Key(Secret, inputs.pullName) in owned
  {
    hide Keys;
    var names := ["cockroachdb.client.root", "cockroachdb.node", "churro.client.root"];
    assert names[0] == "cockroachdb.client.root" && names[1] == "cockroachdb.node" && names[2] == "churro.client.root";
    OwnsAll(owned, Secret, names);
  }

  /** A complete cluster owns these objects. */
  lemma CompleteClusterOwns(owned: set<Key>, inputs: SecretInputs)
    ensures AllComplete(owned, inputs)
            <==> && (forall kind <- {Role, RoleBinding, ServiceAccount} ::
                       Key(kind, "churro") in owned && Key(kind, "cockroachdb") in owned)
                 && Key(Service, "churro-ctl") in owned && Key(Service, "churro-extractsource") in owned
                 && Key(Service, "cockroachdb") in owned && Key(Service, "cockroachdb-public") in owned
                 && Key(Secret, "cockroachdb.client.root") in owned && Key(Secret, "cockroachdb.node") in owned
                 && Key(Secret, "churro.client.root") in owned && Key(Secret, inputs.pullName) in owned
  {
    GroupOwns(owned, inputs);
    SecretsOwn(owned, inputs);
    hide GroupKeys;
    if (forall kind <- {Role, RoleBinding, ServiceAccount} :: GroupKeys(kind, inputs) <= owned)
      && GroupKeys(Service, inputs) <= owned && GroupKeys(Secret, inputs) <= owned
    {
      forall kind: Kind ensures GroupKeys(kind, inputs) <= owned {
        assert kind in {Role, RoleBinding, ServiceAccount} || kind == Service || kind == Secret;
      }
    }
  }

  /** One pass that is not disturbed, its lists being those of the cluster, creates all of them. */
  lemma UndisturbedPassCompletes(owned: set<Key>, foreign: set<Key>, inputs: SecretInputs, env: Kind -> Env)
    requires inputs.pullName !in ["cockroachdb.client.root", "cockroachdb.node", "churro.client.root"]
    requires inputs.pullName in inputs.available && inputs.nodeCreds && inputs.serviceCreds
    requires owned !! foreign && forall kind: Kind :: GroupKeys(kind, inputs) !! foreign
    requires forall kind: Kind ::
               && !env(kind).listFails && (forall i :: !env(kind).faults(i))
               && forall n :: n in env(kind).listed <==> Key(kind, n) in owned
    ensures var after := Pass(owned, foreign, inputs, env);
            && (forall kind <- {Role, RoleBinding, ServiceAccount} ::
                  Key(kind, "churro") in after && Key(kind, "cockroachdb") in after)
            && Key(Service, "churro-ctl") in after && Key(Service, "churro-extractsource") in after
            && Key(Service, "cockroachdb") in after && Key(Service, "cockroachdb-public") in after
            && Key(Secret, "cockroachdb.client.root") in after && Key(Secret, "cockroachdb.node") in after
            && Key(Secret, "churro.client.root") in after && Key(Secret, inputs.pullName) in after
  {
    var after := Pass(owned, foreign, inputs, env);
    forall kind: Kind ensures GroupKeys(kind, inputs) <= after {
      hide Pass, GroupKeys;
      assert env(kind).listed == Listed(owned, kind);
      CleanGroupCompletes(owned, foreign, inputs, env, kind);
    }
    hide Pass, GroupKeys;
    CompleteClusterOwns(after, inputs);
  }

  // ---- repeated passes ----

  function Passes(owned: set<Key>, foreign: set<Key>, inputs: SecretInputs, envs: seq<Kind -> Env>): set<Key> {
    if envs == [] then owned
    else Pass(Passes(owned, foreign, inputs, envs[..|envs| - 1]), foreign, inputs, envs[|envs| - 1])
  }

  /** The passes that met a failed list, a stale list or a failed create in the group. */
  function Disturbed(owned: set<Key>, foreign: set<Key>, inputs: SecretInputs, envs: seq<Kind -> Env>,
                     kind: Kind): nat
  {
    if envs == [] then 0
    else
      var before := envs[..|envs| - 1];
      Disturbed(owned, foreign, inputs, before, kind)
      + if Clean(Passes(owned, foreign, inputs, before), kind, envs[|envs| - 1](kind)) then 0 else 1
  }

  /** Convergence, group by group: from any cluster state, with any failures and stale lists in any
      group of any pass, a group whose names and inputs are free is complete as soon as there were
      more passes than those disturbed in this group, and stays so. */
  lemma {:induction false} RepeatedPassesConverge(owned: set<Key>, foreign: set<Key>, inputs: SecretInputs,
                                                  envs: seq<Kind -> Env>, kind: Kind)
    requires owned !! foreign && inputs.pullName !in Expected(Secret)
    ensures owned <= Passes(owned, foreign, inputs, envs) && Passes(owned, foreign, inputs, envs) !! foreign
    ensures Disturbed(owned, foreign, inputs, envs, kind) <= |envs|
    ensures Disturbed(owned, foreign, inputs, envs, kind) < |envs| && Creatable(kind, foreign, inputs) ==>
              GroupKeys(kind, inputs) <= Passes(owned, foreign, inputs, envs)
  {
    hide Pass, Clean, Creatable, GroupKeys, Expected;
    if envs != [] {
      var before, env := envs[..|envs| - 1], envs[|envs| - 1];
      var o := Passes(owned, foreign, inputs, before);
      RepeatedPassesConverge(owned, foreign, inputs, before, kind);
      PassIsSafe(o, foreign, inputs, env);
      if Clean(o, kind, env(kind)) && Creatable(kind, foreign, inputs) {
        CleanGroupCompletes(o, foreign, inputs, env, kind);
      }
    }
  }

  // ---- without a pull secret name ----

  lemma NoNameNoSecrets(owned: set<Key>, foreign: set<Key>, inputs: SecretInputs, env: Env)
    requires inputs.pullName == "" && "" !in inputs.available && "" !in env.listed
    ensures SecretsPass(owned, foreign, inputs, env).0 == owned
  {
  }

  lemma PassWithoutName(owned: set<Key>, foreign: set<Key>, inputs: SecretInputs, env: Kind -> Env)
    requires inputs.pullName == "" && "" !in inputs.available && "" !in env(Secret).listed
    ensures Listed(Pass(owned, foreign, inputs, env), Secret) == Listed(owned, Secret)
  {
    assert "" !in Expected(Secret);
    assert Secret !in GROUPS[..4] && GROUPS[4] == Secret;
    ThroughIsSafe(owned, foreign, inputs, env, 4);
    NoNameNoSecrets(Through(owned, foreign, inputs, env, 4), foreign, inputs, env(Secret));
    hide SecretsPass, GroupPass, Listed, Expected;
    assert Pass(owned, foreign, inputs, env) == Through(owned, foreign, inputs, env, 5);
  }

  /** With CHURRO_PULL_SECRET_NAME unset no number of passes ever creates any secret, the three
      of the database and of gRPC included. */
  lemma {:induction false} NoPullSecretNoSecrets(owned: set<Key>, foreign: set<Key>, inputs: SecretInputs,
                                                 envs: seq<Kind -> Env>)
    requires inputs.pullName == "" && "" !in inputs.available
    requires forall i :: 0 <= i < |envs| ==> "" !in envs[i](Secret).listed
    ensures Listed(Passes(owned, foreign, inputs, envs), Secret) == Listed(owned, Secret)
  {
    hide Pass, Listed;
    if envs != [] {
      var before := envs[..|envs| - 1];
      NoPullSecretNoSecrets(owned, foreign, inputs, before);
      PassWithoutName(Passes(owned, foreign, inputs, before), foreign, inputs, envs[|envs| - 1]);
    }
  }
}
