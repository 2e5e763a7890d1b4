/** The editor handlers as they are written: they change the object they read, field by field,
    and PUT the whole of it. Each is proved to send exactly the writes of PipelineSpec.PlanFor. */
module Handlers {
  import opened Domain
  import opened PipelineSpec
  import SpliceDelete

  /** The in-memory copy of the custom resource. */
  class PipelineObject {
    var spec: Spec

    constructor (spec: Spec)
      ensures this.spec == spec
    {
      this.spec := spec;
    }
  }

  /** The connection to the API server: what was sent, and which PUTs it accepted. */
  class ApiClient {
    var sent: seq<Spec>
    var accepted: seq<bool>

    constructor ()
      ensures sent == [] && accepted == []
    {
      sent, accepted := [], [];
    }

    method Update(obj: PipelineObject) returns (ok: bool)
      modifies this
      ensures sent == old(sent) + [obj.spec] && accepted == old(accepted) + [ok]
    {
      ok := *;
      sent, accepted := sent + [obj.spec], accepted + [ok];
    }
  }

  /** The writes follow the plan in order, the first refusal ends them and is reported, and
      success is reported only for the whole plan. */
  ghost predicate Follows(plan: Plan, sent: seq<Spec>, accepted: seq<bool>, ok: bool) {
    match plan
    case Reject(_) => sent == [] && accepted == [] && !ok
    case Puts(ps) =>
      && |sent| == |accepted| && sent <= ps
      && (if ok then sent == ps && forall i :: 0 <= i < |accepted| ==> accepted[i]
          else accepted != [] && !accepted[|accepted| - 1]
               && forall i :: 0 <= i < |accepted| - 1 ==> accepted[i])
  }

  /** What a handler's connection shows: nothing of a rejected request; the one object of a plan of
      one, and success just if it was accepted; and of a longer plan all, or the part up to the
      first refusal. */
  lemma FollowsExactly(plan: Plan, sent: seq<Spec>, accepted: seq<bool>, ok: bool)
    requires Follows(plan, sent, accepted, ok)
    ensures plan.Reject? || plan.specs == [] ==> sent == [] && accepted == [] && ok == plan.Puts?
    ensures plan.Puts? && |plan.specs| == 1 ==> sent == plan.specs && accepted == [ok]
    ensures plan.Puts? ==>
              && |accepted| == |sent| <= |plan.specs| && sent == plan.specs[..|sent|]
              && (ok ==> |sent| == |plan.specs|)
              && (!ok ==> sent != [])
              && forall i :: 0 <= i < |sent| ==> accepted[i] == (ok || i < |sent| - 1)
  {
  }

  /** An update loop that has sent `sent` and stands at list `now` and index i. */
  ghost predicate OnPlan<T>(all: seq<seq<T>>, sent: seq<Spec>, accepted: seq<bool>, wrap: seq<T> -> Spec,
                            now: seq<T>, hit: T -> bool, edit: T -> T, i: nat)
    requires i <= |now|
  {
    && |sent| <= |all| && sent == Map(wrap, all[..|sent|])
    && all[|sent|..] == Overwrites(now, hit, edit, i)
    && |accepted| == |sent| && forall k :: 0 <= k < |accepted| ==> accepted[k]
  }

  lemma OnPlanStep<T>(all: seq<seq<T>>, sent: seq<Spec>, accepted: seq<bool>, wrap: seq<T> -> Spec,
                      now: seq<T>, hit: T -> bool, edit: T -> T, i: nat)
    requires i < |now| && OnPlan(all, sent, accepted, wrap, now, hit, edit, i)
    ensures !hit(now[i]) ==> OnPlan(all, sent, accepted, wrap, now, hit, edit, i + 1)
    ensures hit(now[i]) ==>
              var next := now[i := edit(now[i])];
              && OnPlan(all, sent + [wrap(next)], accepted + [true], wrap, next, hit, edit, i + 1)
              && Follows(Puts(Map(wrap, all)), sent + [wrap(next)], accepted + [false], false)
  {
    if hit(now[i]) {
      var next := now[i := edit(now[i])];
      assert all[|sent|..][0] == next && all[|sent|] == next;
      assert all[|sent|..][1..] == all[|sent| + 1..];
      assert sent + [wrap(next)] == Map(wrap, all[..|sent| + 1]);
      assert sent + [wrap(next)] == Map(wrap, all)[..|sent| + 1];
    }
  }

  lemma OnPlanEnd<T>(all: seq<seq<T>>, sent: seq<Spec>, accepted: seq<bool>, wrap: seq<T> -> Spec,
                     now: seq<T>, hit: T -> bool, edit: T -> T)
    requires OnPlan(all, sent, accepted, wrap, now, hit, edit, |now|)
    ensures Follows(Puts(Map(wrap, all)), sent, accepted, true)
  {
    assert all[|sent|..] == [];
    assert all[..|sent|] == all;
  }

  method CreateExtractSource(syntax: PathSyntax, wdir: Source, obj: PipelineObject, client: ApiClient)
    returns (ok: bool)
    requires client.sent == [] && client.accepted == []
    modifies obj, client
    ensures Follows(PlanFor(syntax, CreateSource(wdir), old(obj.spec)), client.sent, client.accepted, ok)
  {
    if !ValidSource(wdir) {
      return false;
    }
    var i := 0;
    while i < |obj.spec.sources|
      invariant i <= |obj.spec.sources|
      invariant forall k :: 0 <= k < i ==> obj.spec.sources[k].path != wdir.path
    {
      if obj.spec.sources[i].path == wdir.path {
        return false;
      }
      i := i + 1;
    }
    obj.spec := obj.spec.(sources := obj.spec.sources + [wdir]);
    ok := client.Update(obj);
  }

  /** Both scans run to the end, so the last source with the id and any source with the path count. */
  method PathIsFree(f: Source, sources: seq<Source>) returns (available: bool)
    ensures available <==> PathOf(sources, f.id) == f.path || !Taken(sources, f.path)
  {
    var currentPath := "";
    for i := 0 to |sources|
      invariant currentPath == PathOf(sources[..i], f.id)
    {
      assert sources[..i + 1][..i] == sources[..i];
      if f.id == sources[i].id {
        currentPath := sources[i].path;
      }
    }
    assert sources[..|sources|] == sources;
    available := true;
    if currentPath != f.path {
      for i := 0 to |sources|
        invariant available <==> forall k :: 0 <= k < i ==> sources[k].path != f.path
      {
        if f.path == sources[i].path {
          available := false;
        }
      }
    }
  }

  method FindScheme(sources: seq<Source>, id: string) returns (scheme: string)
    ensures scheme == SchemeOf(sources, id)
  {
    scheme := "";
    for i := 0 to |sources|
      invariant scheme == SchemeOf(sources[..i], id)
    {
      assert sources[..i + 1][..i] == sources[..i];
      if sources[i].id == id {
        scheme := sources[i].scheme;
      }
    }
    assert sources[..|sources|] == sources;
  }

  method OverwriteSources(f: Source, obj: PipelineObject, client: ApiClient) returns (ok: bool)
    requires client.sent == [] && client.accepted == []
    modifies obj, client
    ensures var was := old(obj.spec);
            Follows(Puts(Map((l: seq<Source>) => was.(sources := l),
                             Overwrites(was.sources, (x: Source) => x.id == f.id, SourceEdit(f), 0))),
                    client.sent, client.accepted, ok)
  {
    ghost var hit := (x: Source) => x.id == f.id;
    ghost var was := obj.spec;
    ghost var wrap := (l: seq<Source>) => was.(sources := l);
    ghost var all := Overwrites(was.sources, hit, SourceEdit(f), 0);
    var i := 0;
    while i < |obj.spec.sources|
      invariant i <= |obj.spec.sources| && obj.spec == wrap(obj.spec.sources)
      invariant OnPlan(all, client.sent, client.accepted, wrap, obj.spec.sources, hit, SourceEdit(f), i)
    {
      OnPlanStep(all, client.sent, client.accepted, wrap, obj.spec.sources, hit, SourceEdit(f), i);
      if obj.spec.sources[i].id == f.id {
        var c := obj.spec.sources[i];
        c := c.(name := f.name, path := f.path, scheme := f.scheme, regex := f.regex);
        c := c.(tablename := f.tablename, port := f.port, encoding := f.encoding);
        c := c.(skipheaders := f.skipheaders, sheetname := f.sheetname, transport := f.transport);
        c := c.(cronexpression := f.cronexpression, servicetype := f.servicetype);
        obj.spec := obj.spec.(sources := obj.spec.sources[i := c]);
        var sent := client.Update(obj);
        if !sent {
          return false;
        }
      }
      i := i + 1;
    }
    OnPlanEnd(all, client.sent, client.accepted, wrap, obj.spec.sources, hit, SourceEdit(f));
    return true;
  }

  method UpdateExtractSource(syntax: PathSyntax, f: Source, obj: PipelineObject, client: ApiClient)
    returns (ok: bool)
    requires client.sent == [] && client.accepted == []
    modifies obj, client
    ensures Follows(PlanFor(syntax, UpdateSource(f), old(obj.spec)), client.sent, client.accepted, ok)
  {
    var available := PathIsFree(f, obj.spec.sources);
    if !available || |obj.spec.sources| == 0 {
      return false;
    }
    ok := OverwriteSources(f, obj, client);
  }

  method CreateExtractRule(syntax: PathSyntax, rule: Rule, obj: PipelineObject, client: ApiClient)
    returns (ok: bool)
    requires client.sent == [] && client.accepted == []
    modifies obj, client
    ensures Follows(PlanFor(syntax, CreateRule(rule), old(obj.spec)), client.sent, client.accepted, ok)
  {
    if rule.sourceId == "" || rule.columnName == "" || rule.columnPath == "" || rule.columnType == "" {
      return false;
    }
    var scheme := FindScheme(obj.spec.sources, rule.sourceId);
    if !ValidRulePath(syntax, rule.columnPath, scheme) {
      return false;
    }
    obj.spec := obj.spec.(rules := obj.spec.rules + [rule]);
    ok := client.Update(obj);
  }

  method OverwriteRules(f: Rule, obj: PipelineObject, client: ApiClient) returns (ok: bool)
    requires client.sent == [] && client.accepted == []
    modifies obj, client
    ensures var was := old(obj.spec);
            Follows(Puts(Map((l: seq<Rule>) => was.(rules := l),
                             Overwrites(was.rules, (x: Rule) => x.id == f.id, RuleEdit(f), 0))),
                    client.sent, client.accepted, ok)
  {
    ghost var hit := (x: Rule) => x.id == f.id;
    ghost var was := obj.spec;
    ghost var wrap := (l: seq<Rule>) => was.(rules := l);
    ghost var all := Overwrites(was.rules, hit, RuleEdit(f), 0);
    var i := 0;
    while i < |obj.spec.rules|
      invariant i <= |obj.spec.rules| && obj.spec == wrap(obj.spec.rules)
      invariant OnPlan(all, client.sent, client.accepted, wrap, obj.spec.rules, hit, RuleEdit(f), i)
    {
      OnPlanStep(all, client.sent, client.accepted, wrap, obj.spec.rules, hit, RuleEdit(f), i);
      if obj.spec.rules[i].id == f.id {
        var c := obj.spec.rules[i].(columnName := f.columnName, columnPath := f.columnPath);
        c := c.(matchValues := f.matchValues, transform := f.transform);
        obj.spec := obj.spec.(rules := obj.spec.rules[i := c]);
        var sent := client.Update(obj);
        if !sent {
          return false;
        }
      }
      i := i + 1;
    }
    OnPlanEnd(all, client.sent, client.accepted, wrap, obj.spec.rules, hit, RuleEdit(f));
    return true;
  }

  method UpdateExtractRule(syntax: PathSyntax, f: Rule, obj: PipelineObject, client: ApiClient)
    returns (ok: bool)
    requires client.sent == [] && client.accepted == []
    modifies obj, client
    ensures Follows(PlanFor(syntax, UpdateRule(f), old(obj.spec)), client.sent, client.accepted, ok)
  {
    var scheme := FindScheme(obj.spec.sources, f.sourceId);
    if !ValidRulePath(syntax, f.columnPath, scheme) || |obj.spec.rules| == 0 {
      return false;
    }
    ok := OverwriteRules(f, obj, client);
  }

  method UpdateExtension(syntax: PathSyntax, ext: Extension, obj: PipelineObject, client: ApiClient)
    returns (ok: bool)
    requires client.sent == [] && client.accepted == []
    modifies obj, client
    ensures Follows(PlanFor(syntax, PipelineSpec.UpdateExtension(ext), old(obj.spec)), client.sent, client.accepted, ok)
  {
    if |obj.spec.extensions| == 0 {
      return false;
    }
    ghost var hit := (x: Extension) => x.id == ext.id;
    ghost var was := obj.spec;
    ghost var wrap := (l: seq<Extension>) => was.(extensions := l);
    ghost var all := Overwrites(was.extensions, hit, ExtensionEdit(ext), 0);
    var i := 0;
    while i < |obj.spec.extensions|
      invariant i <= |obj.spec.extensions| && obj.spec == wrap(obj.spec.extensions)
      invariant OnPlan(all, client.sent, client.accepted, wrap, obj.spec.extensions, hit, ExtensionEdit(ext), i)
    {
      OnPlanStep(all, client.sent, client.accepted, wrap, obj.spec.extensions, hit, ExtensionEdit(ext), i);
      if obj.spec.extensions[i].id == ext.id {
        var c := obj.spec.extensions[i].(name := ext.name).(path := ext.path);
        obj.spec := obj.spec.(extensions := obj.spec.extensions[i := c]);
        var sent := client.Update(obj);
        if !sent {
          return false;
        }
      }
      i := i + 1;
    }
    OnPlanEnd(all, client.sent, client.accepted, wrap, obj.spec.extensions, hit, ExtensionEdit(ext));
    return true;
  }

  method UpdateTransformFunction(syntax: PathSyntax, f: Function, obj: PipelineObject, client: ApiClient)
    returns (ok: bool)
    requires client.sent == [] && client.accepted == []
    modifies obj, client
    ensures Follows(PlanFor(syntax, UpdateFunction(f), old(obj.spec)), client.sent, client.accepted, ok)
  {
    if |obj.spec.functions| == 0 {
      return false;
    }
    ghost var hit := (x: Function) => x.id == f.id;
    ghost var was := obj.spec;
    ghost var wrap := (l: seq<Function>) => was.(functions := l);
    ghost var all := Overwrites(was.functions, hit, FunctionEdit(f), 0);
    var i := 0;
    while i < |obj.spec.functions|
      invariant i <= |obj.spec.functions| && obj.spec == wrap(obj.spec.functions)
      invariant OnPlan(all, client.sent, client.accepted, wrap, obj.spec.functions, hit, FunctionEdit(f), i)
    {
      OnPlanStep(all, client.sent, client.accepted, wrap, obj.spec.functions, hit, FunctionEdit(f), i);
      if obj.spec.functions[i].id == f.id {
        var c := obj.spec.functions[i].(name := f.name).(source := f.source);
        obj.spec := obj.spec.(functions := obj.spec.functions[i := c]);
        var sent := client.Update(obj);
        if !sent {
          return false;
        }
      }
      i := i + 1;
    }
    OnPlanEnd(all, client.sent, client.accepted, wrap, obj.spec.functions, hit, FunctionEdit(f));
    return true;
  }

  /** The delete loop runs on the slice the object holds, in its own backing array. */
  method DeleteExtractSource(syntax: PathSyntax, key: string, obj: PipelineObject, client: ApiClient)
    returns (ok: bool)
    requires client.sent == [] && client.accepted == []
    modifies obj, client
    ensures Follows(PlanFor(syntax, DeleteSource(key), old(obj.spec)), client.sent, client.accepted, ok)
  {
    if |obj.spec.sources| == 0 {
      return false;
    }
    var list := new SpliceDelete.Slice<Source>.Of(obj.spec.sources);
    list.DeleteMatching((x: Source) => x.id == key);
    obj.spec := obj.spec.(sources := list.data[..list.len]);
    ok := client.Update(obj);
  }

  method DeleteExtractRule(syntax: PathSyntax, key: string, obj: PipelineObject, client: ApiClient) returns (ok: bool)
    requires client.sent == [] && client.accepted == []
    modifies obj, client
    ensures Follows(PlanFor(syntax, DeleteRule(key), old(obj.spec)), client.sent, client.accepted, ok)
  {
    if |obj.spec.rules| == 0 {
      return false;
    }
    var list := new SpliceDelete.Slice<Rule>.Of(obj.spec.rules);
    list.DeleteMatching((x: Rule) => x.id == key);
    obj.spec := obj.spec.(rules := list.data[..list.len]);
    ok := client.Update(obj);
  }

  method CreateExtension(syntax: PathSyntax, ext: Extension, obj: PipelineObject, client: ApiClient) returns (ok: bool)
    requires client.sent == [] && client.accepted == []
    modifies obj, client
    ensures Follows(PlanFor(syntax, PipelineSpec.CreateExtension(ext), old(obj.spec)), client.sent, client.accepted, ok)
  {
    if ext.sourceId == "" || ext.name == "" || ext.path == "" {
      return false;
    }
    obj.spec := obj.spec.(extensions := obj.spec.extensions + [ext]);
    ok := client.Update(obj);
  }

  method DeleteExtension(syntax: PathSyntax, key: string, obj: PipelineObject, client: ApiClient) returns (ok: bool)
    requires client.sent == [] && client.accepted == []
    modifies obj, client
    ensures Follows(PlanFor(syntax, PipelineSpec.DeleteExtension(key), old(obj.spec)), client.sent, client.accepted, ok)
  {
    if |obj.spec.extensions| == 0 {
      return false;
    }
    var list := new SpliceDelete.Slice<Extension>.Of(obj.spec.extensions);
    list.DeleteMatching((x: Extension) => x.id == key);
    obj.spec := obj.spec.(extensions := list.data[..list.len]);
    ok := client.Update(obj);
  }

  method CreateTransformFunction(syntax: PathSyntax, f: Function, obj: PipelineObject, client: ApiClient)
    returns (ok: bool)
    requires client.sent == [] && client.accepted == []
    modifies obj, client
    ensures Follows(PlanFor(syntax, CreateFunction(f), old(obj.spec)), client.sent, client.accepted, ok)
  {
    if f.name == "" || f.source == "" {
      return false;
    }
    obj.spec := obj.spec.(functions := obj.spec.functions + [f]);
    ok := client.Update(obj);
  }

  method DeleteTransformFunction(syntax: PathSyntax, key: string, obj: PipelineObject, client: ApiClient)
    returns (ok: bool)
    requires client.sent == [] && client.accepted == []
    modifies obj, client
    ensures Follows(PlanFor(syntax, DeleteFunction(key), old(obj.spec)), client.sent, client.accepted, ok)
  {
    if |obj.spec.functions| == 0 {
      return false;
    }
    var list := new SpliceDelete.Slice<Function>.Of(obj.spec.functions);
    list.DeleteMatching((x: Function) => x.id == key);
    obj.spec := obj.spec.(functions := list.data[..list.len]);
    ok := client.Update(obj);
  }

  /** The operator's id step writes back the copy it was handed. */
  method ProcessId(syntax: PathSyntax, newId: string, cached: PipelineObject, client: ApiClient) returns (ok: bool)
    requires client.sent == [] && client.accepted == []
    modifies cached, client
    ensures Follows(PlanFor(syntax, PipelineSpec.ProcessId(newId), old(cached.spec)), client.sent, client.accepted, ok)
  {
    if cached.spec.id != "" {
      return true;
    }
    cached.spec := cached.spec.(id := newId);
    ok := client.Update(cached);
  }

  /** The credential step looks at its copy, but edits and writes a live read; both pairs come
      from one call of the generator. */
  method ProcessCreds(syntax: PathSyntax, serial: string, cached: PipelineObject, live: PipelineObject,
                      client: ApiClient)
    returns (ok: bool)
    requires client.sent == [] && client.accepted == [] && cached != live
    modifies cached, live, client
    ensures old(cached.spec.dbCreds) != Empty ==> ok && client.sent == [] && unchanged(live)
    ensures old(cached.spec.dbCreds) == Empty ==>
              Follows(PlanFor(syntax, PipelineSpec.ProcessCreds(serial), old(live.spec)), client.sent,
                  client.accepted, ok)
  {
    if cached.spec.dbCreds != Empty {
      return true;
    }
    var d, s := Generated(serial), Generated(serial);
    cached.spec := cached.spec.(dbCreds := d);
    cached.spec := cached.spec.(serviceCreds := s);
    live.spec := live.spec.(dbCreds := d);
    live.spec := live.spec.(serviceCreds := s);
    ok := client.Update(live);
  }
}
