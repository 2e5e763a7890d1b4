/** What one editor request does to the pipeline custom resource: the writes it plans from
    the copy it read (`Plan`), and its meaning on a resource nobody else touches (`Apply`). */
module PipelineSpec {
  import opened Wrappers
  import opened Domain
  import SpliceDelete

  /** Credential text: empty, or all of it from one call of the key generator, of which `serial`
      stands for the random part. */
  datatype Material = Empty | Generated(serial: string)

  datatype Spec = Spec(
    id: string, dbCreds: Material, serviceCreds: Material, functions: seq<Function>,
    sources: seq<Source>, extensions: seq<Extension>, rules: seq<Rule>)

  datatype Request =
    | CreateSource(source: Source)
    | UpdateSource(source: Source)
    | DeleteSource(key: string)
    | CreateRule(rule: Rule)
    | UpdateRule(rule: Rule)
    | DeleteRule(key: string)
    | CreateExtension(extension: Extension)
    | UpdateExtension(extension: Extension)
    | DeleteExtension(key: string)
    | CreateFunction(fn: Function)
    | UpdateFunction(fn: Function)
    | DeleteFunction(key: string)
    | ProcessId(newId: string)
    | ProcessCreds(serial: string)

  datatype Error = Invalid | PathTaken | BadRulePath | NoneExist

  /** The whole objects a handler means to PUT, in order, or the error it stops with. */
  datatype Plan = Reject(error: Error) | Puts(specs: seq<Spec>)

  // ---- request checks that need no copy of the resource ----

  predicate ValidSource(s: Source) {
    && s.name != "" && s.path != "" && s.scheme != "" && s.tablename != ""
    && (s.scheme == HTTPPOST_SCHEME ==> s.transport != "" && s.encoding != "" && s.servicetype != "")
    && (s.regex == "" ==> s.scheme == API_SCHEME || s.scheme == HTTPPOST_SCHEME)
    && (s.scheme == CSV_SCHEME || s.scheme == XLSX_SCHEME ==> s.skipheaders >= 0)
    && (s.scheme == XLSX_SCHEME ==> s.sheetname != "")
  }

  predicate WellFormed(r: Request) {
    match r
    case CreateSource(s) => ValidSource(s)
    case CreateRule(x) => x.sourceId != "" && x.columnName != "" && x.columnPath != "" && x.columnType != ""
    case CreateExtension(x) => x.sourceId != "" && x.name != "" && x.path != ""
    case CreateFunction(f) => f.name != "" && f.source != ""
    case _ => true
  }

  // ---- field overwrites of the update handlers ----

  function SourceEdit(f: Source): Source -> Source {
    (s: Source) => s.(name := f.name, path := f.path, scheme := f.scheme, regex := f.regex,
      tablename := f.tablename, port := f.port, encoding := f.encoding, skipheaders := f.skipheaders,
      sheetname := f.sheetname, transport := f.transport, cronexpression := f.cronexpression,
      servicetype := f.servicetype)
  }

  /** The column type and the owning source of a rule are not editable. */
  function RuleEdit(f: Rule): Rule -> Rule {
    (r: Rule) => r.(columnName := f.columnName, columnPath := f.columnPath,
      matchValues := f.matchValues, transform := f.transform)
  }

  function ExtensionEdit(f: Extension): Extension -> Extension {
    (e: Extension) => e.(name := f.name, path := f.path)
  }

  function FunctionEdit(f: Function): Function -> Function {
    (g: Function) => g.(name := f.name, source := f.source)
  }

  // ---- the update loop: overwrite a match, PUT the whole object, go on ----

  /** The list at each PUT of a loop that stands at index i. */
  function Overwrites<T>(s: seq<T>, hit: T -> bool, edit: T -> T, i: nat): (r: seq<seq<T>>)
    requires i <= |s|
    ensures forall t <- r :: |t| == |s|
    decreases |s| - i
  {
    if i == |s| then []
    else if hit(s[i]) then
      var t := s[i := edit(s[i])];
      [t] + Overwrites(t, hit, edit, i + 1)
    else Overwrites(s, hit, edit, i + 1)
  }

  /** Only the first match overwritten. */
  function EditFirst<T>(s: seq<T>, hit: T -> bool, edit: T -> T): (r: seq<T>)
    ensures |r| == |s|
  {
    if s == [] then []
    else if hit(s[0]) then [edit(s[0])] + s[1..]
    else [s[0]] + EditFirst(s[1..], hit, edit)
  }

  function Hits<T>(s: seq<T>, hit: T -> bool): nat {
    if s == [] then 0 else (if hit(s[0]) then 1 else 0) + Hits(s[1..], hit)
  }

  /** One PUT per match. */
  lemma {:induction false} OverwritesCount<T>(s: seq<T>, hit: T -> bool, edit: T -> T, i: nat)
    requires i <= |s|
    ensures |Overwrites(s, hit, edit, i)| == Hits(s[i..], hit)
    decreases |s| - i
  {
    if i < |s| {
      assert s[i..][0] == s[i] && s[i..][1..] == s[i + 1..];
      var t := if hit(s[i]) then s[i := edit(s[i])] else s;
      OverwritesCount(t, hit, edit, i + 1);
      assert t[i + 1..] == s[i + 1..];
    }
  }

  lemma OverwritesHit<T>(s: seq<T>, hit: T -> bool, edit: T -> T, i: nat)
    requires i < |s| && hit(s[i])
    ensures s[..i] + EditFirst(s[i..], hit, edit) == s[i := edit(s[i])]
    ensures Overwrites(s, hit, edit, i) != [] && Overwrites(s, hit, edit, i)[0] == s[i := edit(s[i])]
  {
    assert s[i..][0] == s[i] && s[i..][1..] == s[i + 1..];
    assert EditFirst(s[i..], hit, edit) == [edit(s[i])] + s[i + 1..];
  }

  lemma OverwritesMiss<T>(s: seq<T>, hit: T -> bool, edit: T -> T, i: nat)
    requires i < |s| && !hit(s[i])
    ensures s[..i] + EditFirst(s[i..], hit, edit) == s[..i + 1] + EditFirst(s[i + 1..], hit, edit)
    ensures Overwrites(s, hit, edit, i) == Overwrites(s, hit, edit, i + 1)
  {
    assert s[i..][0] == s[i] && s[i..][1..] == s[i + 1..];
    assert EditFirst(s[i..], hit, edit) == [s[i]] + EditFirst(s[i + 1..], hit, edit);
    assert s[..i + 1] == s[..i] + [s[i]];
  }

  /** The first PUT of the loop carries the first-match edit. */
  lemma {:induction false} OverwritesFirst<T>(s: seq<T>, hit: T -> bool, edit: T -> T, i: nat)
    requires i <= |s|
    ensures var w := Overwrites(s, hit, edit, i);
            s[..i] + EditFirst(s[i..], hit, edit) == if w == [] then s else w[0]
    decreases |s| - i
  {
    if i == |s| {
      assert s[..i] == s && s[i..] == [];
    } else {
      hide Overwrites, EditFirst;
      if hit(s[i]) {
        OverwritesHit(s, hit, edit, i);
      } else {
        OverwritesMiss(s, hit, edit, i);
        OverwritesFirst(s, hit, edit, i + 1);
      }
    }
  }

  // ---- what the handlers look up in the copy they read ----

  /** The scan has no break, so the last source with the id wins. */
  function SchemeOf(sources: seq<Source>, id: string): string {
    if sources == [] then ""
    else if sources[|sources| - 1].id == id then sources[|sources| - 1].scheme
    else SchemeOf(sources[..|sources| - 1], id)
  }

  function PathOf(sources: seq<Source>, id: string): string {
    if sources == [] then ""
    else if sources[|sources| - 1].id == id then sources[|sources| - 1].path
    else PathOf(sources[..|sources| - 1], id)
  }

  predicate Taken(sources: seq<Source>, path: string) {
    exists s <- sources :: s.path == path
  }

  // ---- the plan of a handler that read `spec` ----

  function PlanFor(syntax: PathSyntax, r: Request, spec: Spec): Plan {
    match r
    case CreateSource(s) =>
      if !ValidSource(s) then Reject(Invalid)
      else if Taken(spec.sources, s.path) then Reject(PathTaken)
      else Puts([spec.(sources := spec.sources + [s])])
    case UpdateSource(f) =>
      if PathOf(spec.sources, f.id) != f.path && Taken(spec.sources, f.path) then Reject(PathTaken)
      else if spec.sources == [] then Reject(NoneExist)
      else Puts(Map((l: seq<Source>) => spec.(sources := l),
                    Overwrites(spec.sources, (x: Source) => x.id == f.id, SourceEdit(f), 0)))
    case DeleteSource(key) =>
      if spec.sources == [] then Reject(NoneExist)
      else Puts([spec.(sources := SpliceDelete.Scan(spec.sources, (x: Source) => x.id == key))])
    case CreateRule(x) =>
      if !WellFormed(r) then Reject(Invalid)
      else if !ValidRulePath(syntax, x.columnPath, SchemeOf(spec.sources, x.sourceId)) then Reject(BadRulePath)
      else Puts([spec.(rules := spec.rules + [x])])
    case UpdateRule(f) =>
      if !ValidRulePath(syntax, f.columnPath, SchemeOf(spec.sources, f.sourceId)) then Reject(BadRulePath)
      else if spec.rules == [] then Reject(NoneExist)
      else Puts(Map((l: seq<Rule>) => spec.(rules := l),
                    Overwrites(spec.rules, (x: Rule) => x.id == f.id, RuleEdit(f), 0)))
    case DeleteRule(key) =>
      if spec.rules == [] then Reject(NoneExist)
      else Puts([spec.(rules := SpliceDelete.Scan(spec.rules, (x: Rule) => x.id == key))])
    case CreateExtension(x) =>
      if !WellFormed(r) then Reject(Invalid)
      else Puts([spec.(extensions := spec.extensions + [x])])
    case UpdateExtension(f) =>
      if spec.extensions == [] then Reject(NoneExist)
      else Puts(Map((l: seq<Extension>) => spec.(extensions := l),
                    Overwrites(spec.extensions, (x: Extension) => x.id == f.id, ExtensionEdit(f), 0)))
    case DeleteExtension(key) =>
      if spec.extensions == [] then Reject(NoneExist)
      else Puts([spec.(extensions := SpliceDelete.Scan(spec.extensions, (x: Extension) => x.id == key))])
    case CreateFunction(x) =>
      if !WellFormed(r) then Reject(Invalid)
      else Puts([spec.(functions := spec.functions + [x])])
    case UpdateFunction(f) =>
      if spec.functions == [] then Reject(NoneExist)
      else Puts(Map((l: seq<Function>) => spec.(functions := l),
                    Overwrites(spec.functions, (x: Function) => x.id == f.id, FunctionEdit(f), 0)))
    case DeleteFunction(key) =>
      if spec.functions == [] then Reject(NoneExist)
      else Puts([spec.(functions := SpliceDelete.Scan(spec.functions, (x: Function) => x.id == key))])
    case ProcessId(newId) =>
      if spec.id == "" then Puts([spec.(id := newId)]) else Puts([])
    case ProcessCreds(serial) =>
      Puts([spec.(dbCreds := Generated(serial), serviceCreds := Generated(serial))])
  }

  // ---- the sequential meaning of a request ----

  /** Deletes are true filters and updates touch the addressed element only; extension ids come
      from callers, so extension deletes keep the scan's own meaning. */
  function Apply(syntax: PathSyntax, r: Request, spec: Spec): Spec {
    match r
    case CreateSource(s) =>
      if ValidSource(s) && !Taken(spec.sources, s.path) then spec.(sources := spec.sources + [s]) else spec
    case UpdateSource(f) =>
      if PathOf(spec.sources, f.id) == f.path || !Taken(spec.sources, f.path) then
        spec.(sources := EditFirst(spec.sources, (x: Source) => x.id == f.id, SourceEdit(f)))
      else spec
    case DeleteSource(key) =>
      spec.(sources := SpliceDelete.Keep(spec.sources, (x: Source) => x.id == key))
    case CreateRule(x) =>
      if WellFormed(r) && ValidRulePath(syntax, x.columnPath, SchemeOf(spec.sources, x.sourceId)) then
        spec.(rules := spec.rules + [x])
      else spec
    case UpdateRule(f) =>
      if ValidRulePath(syntax, f.columnPath, SchemeOf(spec.sources, f.sourceId)) then
        spec.(rules := EditFirst(spec.rules, (x: Rule) => x.id == f.id, RuleEdit(f)))
      else spec
    case DeleteRule(key) =>
      spec.(rules := SpliceDelete.Keep(spec.rules, (x: Rule) => x.id == key))
    case CreateExtension(x) =>
      if WellFormed(r) then spec.(extensions := spec.extensions + [x]) else spec
    case UpdateExtension(f) =>
      spec.(extensions := EditFirst(spec.extensions, (x: Extension) => x.id == f.id, ExtensionEdit(f)))
    case DeleteExtension(key) =>
      spec.(extensions := SpliceDelete.Scan(spec.extensions, (x: Extension) => x.id == key))
    case CreateFunction(x) =>
      if WellFormed(r) then spec.(functions := spec.functions + [x]) else spec
    case UpdateFunction(f) =>
      spec.(functions := EditFirst(spec.functions, (x: Function) => x.id == f.id, FunctionEdit(f)))
    case DeleteFunction(key) =>
      spec.(functions := SpliceDelete.Keep(spec.functions, (x: Function) => x.id == key))
    case ProcessId(newId) =>
      if spec.id == "" then spec.(id := newId) else spec
    case ProcessCreds(serial) =>
      spec.(dbCreds := Generated(serial), serviceCreds := Generated(serial))
  }

  // ---- invariants of one resource ----

  ghost predicate SpecInv(spec: Spec) {
    && UniqueBy(spec.sources, SourceId)
    && UniqueBy(spec.sources, SourcePath)
    && UniqueBy(spec.rules, RuleId)
    && UniqueBy(spec.functions, FunctionId)
    && spec.dbCreds == spec.serviceCreds
  }

  function Serials(m: Material): set<string> {
    if m.Generated? then {m.serial} else {}
  }

  /** Every xid and every credential serial the resource holds. */
  ghost function Ids(spec: Spec): set<string> {
    (set s <- spec.sources :: s.id) + (set r <- spec.rules :: r.id)
    + (set f <- spec.functions :: f.id) + {spec.id} + Serials(spec.dbCreds)
  }

  /** The xid or serial a request brings with it. */
  function NewId(r: Request): Option<string> {
    match r
    case CreateSource(s) => Some(s.id)
    case CreateRule(x) => Some(x.id)
    case CreateFunction(f) => Some(f.id)
    case ProcessId(newId) => Some(newId)
    case ProcessCreds(serial) => Some(serial)
    case _ => None
  }

  // ---- the plan's first write is the sequential meaning; without a write nothing was meant ----

  /** The first write of a plan is the sequential meaning; without a write nothing was meant. */
  ghost predicate MeansApply(syntax: PathSyntax, r: Request, spec: Spec) {
    match PlanFor(syntax, r, spec)
    case Reject(_) => Apply(syntax, r, spec) == spec
    case Puts(ps) => Apply(syntax, r, spec) == if ps == [] then spec else ps[0]
  }

  lemma UpdatePlanIsApply(syntax: PathSyntax, r: Request, spec: Spec)
    requires r.UpdateSource? || r.UpdateRule? || r.UpdateExtension? || r.UpdateFunction?
    ensures MeansApply(syntax, r, spec)
  {
    hide Overwrites, EditFirst;
    match r
    case UpdateSource(f) => FirstWrite(spec.sources, (x: Source) => x.id == f.id, SourceEdit(f));
    case UpdateRule(f) => FirstWrite(spec.rules, (x: Rule) => x.id == f.id, RuleEdit(f));
    case UpdateExtension(f) => FirstWrite(spec.extensions, (x: Extension) => x.id == f.id, ExtensionEdit(f));
    case UpdateFunction(f) => FirstWrite(spec.functions, (x: Function) => x.id == f.id, FunctionEdit(f));
  }

  lemma DeletePlanIsApply(syntax: PathSyntax, r: Request, spec: Spec)
    requires SpecInv(spec) && (r.DeleteSource? || r.DeleteRule? || r.DeleteFunction?)
    ensures MeansApply(syntax, r, spec)
  {
    hide SpliceDelete.Scan, SpliceDelete.Keep, UniqueBy;
    match r
    case DeleteSource(key) => DeleteIsKeep(spec.sources, SourceId, key, (x: Source) => x.id == key);
    case DeleteRule(key) => DeleteIsKeep(spec.rules, RuleId, key, (x: Rule) => x.id == key);
    case DeleteFunction(key) => DeleteIsKeep(spec.functions, FunctionId, key, (x: Function) => x.id == key);
  }

  lemma OtherPlanIsApply(syntax: PathSyntax, r: Request, spec: Spec)
    requires r.CreateSource? || r.CreateRule? || r.CreateExtension? || r.DeleteExtension? || r.CreateFunction?
             || r.ProcessId? || r.ProcessCreds?
    ensures MeansApply(syntax, r, spec)
  {
    hide Overwrites, EditFirst, SpliceDelete.Keep;
  }

  lemma PlanIsApply(syntax: PathSyntax, r: Request, spec: Spec)
    requires SpecInv(spec)
    ensures match PlanFor(syntax, r, spec)
            case Reject(_) => Apply(syntax, r, spec) == spec
            case Puts(ps) => Apply(syntax, r, spec) == if ps == [] then spec else ps[0]
  {
    hide PlanFor, Apply;
    if r.UpdateSource? || r.UpdateRule? || r.UpdateExtension? || r.UpdateFunction? {
      UpdatePlanIsApply(syntax, r, spec);
    } else if r.DeleteSource? || r.DeleteRule? || r.DeleteFunction? {
      DeletePlanIsApply(syntax, r, spec);
    } else {
      OtherPlanIsApply(syntax, r, spec);
    }
  }

  lemma FirstWrite<T>(s: seq<T>, hit: T -> bool, edit: T -> T)
    ensures EditFirst(s, hit, edit) == var w := Overwrites(s, hit, edit, 0); if w == [] then s else w[0]
    ensures s == [] ==> EditFirst(s, hit, edit) == []
  {
    OverwritesFirst(s, hit, edit, 0);
    assert s[0..] == s && s[..0] + EditFirst(s, hit, edit) == EditFirst(s, hit, edit);
  }

  lemma DeleteIsKeep<T(!new)>(s: seq<T>, key: T -> string, k: string, hit: T -> bool)
    requires UniqueBy(s, key)
    requires forall x :: hit(x) <==> key(x) == k
    ensures SpliceDelete.Scan(s, hit) == SpliceDelete.Keep(s, hit)
    ensures s == [] ==> SpliceDelete.Keep(s, hit) == []
  {
    SpliceDelete.UniqueHitIsKeep(s, hit);
  }

  // ---- the invariants survive every request whose xid is new ----

  lemma {:induction false} KeepUnique<T(!new)>(s: seq<T>, key: T -> string, hit: T -> bool)
    requires UniqueBy(s, key)
    ensures UniqueBy(SpliceDelete.Keep(s, hit), key)
  {
    if s != [] {
      KeepUnique(s[1..], key, hit);
      forall x <- SpliceDelete.Keep(s[1..], hit) ensures key(x) != key(s[0]) {
        assert x in s[1..];
      }
    }
  }

  /** Position by position, EditFirst changes one hit at most. */
  lemma {:induction false} EditFirstAt<T>(s: seq<T>, hit: T -> bool, edit: T -> T) returns (at: nat)
    ensures at <= |s| && forall i :: 0 <= i < at ==> !hit(s[i])
    ensures at < |s| ==> hit(s[at])
    ensures EditFirst(s, hit, edit) == if at == |s| then s else s[at := edit(s[at])]
  {
    if s == [] || hit(s[0]) {
      at := 0;
    } else {
      var rest := EditFirstAt(s[1..], hit, edit);
      at := rest + 1;
      assert s == [s[0]] + s[1..];
      forall i | 0 <= i < at ensures !hit(s[i]) {
        if i > 0 { assert s[i] == s[1..][i - 1]; }
      }
    }
  }

  lemma EditKeepsKey<T(!new)>(s: seq<T>, key: T -> string, hit: T -> bool, edit: T -> T)
    requires UniqueBy(s, key) && forall x :: key(edit(x)) == key(x)
    ensures UniqueBy(EditFirst(s, hit, edit), key)
  {
    var at := EditFirstAt(s, hit, edit);
    var t := EditFirst(s, hit, edit);
    assert forall i :: 0 <= i < |s| ==> key(t[i]) == key(s[i]);
  }

  /** The id that addresses an update has the path of the one source with that id. */
  lemma {:induction false} PathOfUnique(sources: seq<Source>, i: nat)
    requires UniqueBy(sources, SourceId) && i < |sources|
    ensures PathOf(sources, sources[i].id) == sources[i].path
  {
    var n := |sources| - 1;
    if i != n {
      assert SourceId(sources[i]) != SourceId(sources[n]);
      PathOfUnique(sources[..n], i);
    }
  }

  lemma UpdateSourceKeepsPaths(sources: seq<Source>, f: Source)
    requires UniqueBy(sources, SourceId) && UniqueBy(sources, SourcePath)
    requires PathOf(sources, f.id) == f.path || !Taken(sources, f.path)
    ensures UniqueBy(EditFirst(sources, (x: Source) => x.id == f.id, SourceEdit(f)), SourcePath)
  {
    var at := EditFirstAt(sources, (x: Source) => x.id == f.id, SourceEdit(f));
    if at < |sources| {
      PathOfUnique(sources, at);
      forall i | 0 <= i < |sources| && i != at ensures sources[i].path != f.path {
        assert sources[i] in sources;
        assert SourcePath(sources[i]) != SourcePath(sources[at]);
      }
    }
  }

  lemma AppendUnique<T(!new)>(s: seq<T>, key: T -> string, x: T)
    requires UniqueBy(s, key) && forall y <- s :: key(y) != key(x)
    ensures UniqueBy(s + [x], key)
  {
    forall i, j | 0 <= i < j < |s + [x]| ensures key((s + [x])[i]) != key((s + [x])[j]) {
      assert s[i] in s;
    }
  }

  lemma ApplySourceKeepsInv(syntax: PathSyntax, r: Request, spec: Spec)
    requires SpecInv(spec) && (r.CreateSource? || r.UpdateSource? || r.DeleteSource?)
    requires NewId(r).Some? ==> NewId(r).value !in Ids(spec)
    ensures SpecInv(Apply(syntax, r, spec))
  {
    match r
    case CreateSource(s) =>
      if ValidSource(s) && !Taken(spec.sources, s.path) {
        AppendUnique(spec.sources, SourceId, s);
        AppendUnique(spec.sources, SourcePath, s);
      }
    case UpdateSource(f) =>
      if PathOf(spec.sources, f.id) == f.path || !Taken(spec.sources, f.path) {
        EditKeepsKey(spec.sources, SourceId, (x: Source) => x.id == f.id, SourceEdit(f));
        UpdateSourceKeepsPaths(spec.sources, f);
      }
    case DeleteSource(key) =>
      KeepUnique(spec.sources, SourceId, (x: Source) => x.id == key);
      KeepUnique(spec.sources, SourcePath, (x: Source) => x.id == key);
  }

  lemma ApplyKeepsInv(syntax: PathSyntax, r: Request, spec: Spec)
    requires SpecInv(spec)
    requires NewId(r).Some? ==> NewId(r).value !in Ids(spec)
    ensures SpecInv(Apply(syntax, r, spec))
  {
    match r
    case CreateSource(_) => ApplySourceKeepsInv(syntax, r, spec);
    case UpdateSource(_) => ApplySourceKeepsInv(syntax, r, spec);
    case DeleteSource(_) => ApplySourceKeepsInv(syntax, r, spec);
    case CreateRule(x) => AppendUnique(spec.rules, RuleId, x);
    case UpdateRule(f) => EditKeepsKey(spec.rules, RuleId, (x: Rule) => x.id == f.id, RuleEdit(f));
    case DeleteRule(key) => KeepUnique(spec.rules, RuleId, (x: Rule) => x.id == key);
    case CreateFunction(x) => AppendUnique(spec.functions, FunctionId, x);
    case UpdateFunction(f) =>
      EditKeepsKey(spec.functions, FunctionId, (x: Function) => x.id == f.id, FunctionEdit(f));
    case DeleteFunction(key) => KeepUnique(spec.functions, FunctionId, (x: Function) => x.id == key);
    case _ =>
  }

  /** Every id of an edited list belonged to the list before. */
  lemma EditAddsNoKey<T(!new)>(s: seq<T>, key: T -> string, hit: T -> bool, edit: T -> T)
    requires forall x :: key(edit(x)) == key(x)
    ensures forall x <- EditFirst(s, hit, edit) :: exists y <- s :: key(y) == key(x)
  {
    var at := EditFirstAt(s, hit, edit);
    forall x <- EditFirst(s, hit, edit) ensures exists y <- s :: key(y) == key(x) {
      var i :| 0 <= i < |s| && EditFirst(s, hit, edit)[i] == x;
      assert s[i] in s && key(s[i]) == key(x);
    }
  }

  /** No request but its own brings in an xid, and an id of the pipeline never changes once set. */
  lemma ApplyIds(syntax: PathSyntax, r: Request, spec: Spec)
    ensures forall k <- Ids(Apply(syntax, r, spec)) :: k in Ids(spec) || NewId(r) == Some(k)
    ensures spec.id != "" ==> Apply(syntax, r, spec).id == spec.id
  {
    match r
    case UpdateSource(f) => EditAddsNoKey(spec.sources, SourceId, (x: Source) => x.id == f.id, SourceEdit(f));
    case UpdateRule(f) => EditAddsNoKey(spec.rules, RuleId, (x: Rule) => x.id == f.id, RuleEdit(f));
    case UpdateFunction(f) =>
      EditAddsNoKey(spec.functions, FunctionId, (x: Function) => x.id == f.id, FunctionEdit(f));
    case _ =>
  }
}
