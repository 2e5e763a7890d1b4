/** What the editors write, read back from the objects they send: stated over the request's own
    fields and the list positions they land on, without the functions that compute the writes. */
module ReadBack {
  import opened Wrappers
  import opened Domain
  import opened PipelineSpec
  import Decimal
  import SpliceDelete

  // ---- where an edit lands ----

  lemma {:induction false} EditLands<T>(s: seq<T>, hit: T -> bool, edit: T -> T, i: nat)
    requires i < |s| && hit(s[i]) && forall j :: 0 <= j < i ==> !hit(s[j])
    ensures EditFirst(s, hit, edit) == s[i := edit(s[i])]
  {
    if i > 0 {
      EditLands(s[1..], hit, edit, i - 1);
      assert s == [s[0]] + s[1..];
    }
  }

  lemma {:induction false} NoHits<T>(s: seq<T>, hit: T -> bool, edit: T -> T, i: nat)
    requires i <= |s| && forall j :: i <= j < |s| ==> !hit(s[j])
    ensures Overwrites(s, hit, edit, i) == []
    decreases |s| - i
  {
    if i < |s| {
      NoHits(s, hit, edit, i + 1);
    }
  }

  lemma {:induction false} OneHit<T>(s: seq<T>, hit: T -> bool, edit: T -> T, i: nat, k: nat)
    requires k <= i < |s| && hit(s[i]) && forall j :: k <= j < |s| && j != i ==> !hit(s[j])
    ensures Overwrites(s, hit, edit, k) == [s[i := edit(s[i])]]
    decreases |s| - k
  {
    if k == i {
      NoHits(s[i := edit(s[i])], hit, edit, i + 1);
    } else {
      OneHit(s, hit, edit, i, k + 1);
    }
  }

  /** Every PUT of an update loop has its matches so far edited and nothing else: the last one has
      all of them. */
  lemma {:induction false} LastWriteEditsAll<T>(s: seq<T>, hit: T -> bool, edit: T -> T, i: nat)
    requires i <= |s|
    ensures var w := Overwrites(s, hit, edit, i);
            w != [] ==> forall j :: 0 <= j < |s| ==>
              w[|w| - 1][j] == if i <= j && hit(s[j]) then edit(s[j]) else s[j]
    ensures Overwrites(s, hit, edit, i) == [] ==> forall j :: i <= j < |s| ==> !hit(s[j])
    decreases |s| - i
  {
    if i < |s| {
      var t := if hit(s[i]) then s[i := edit(s[i])] else s;
      LastWriteEditsAll(t, hit, edit, i + 1);
      var w := Overwrites(t, hit, edit, i + 1);
      assert hit(s[i]) ==> Overwrites(s, hit, edit, i) == [t] + w;
    }
  }

  lemma {:induction false} KeepAll<T>(s: seq<T>, hit: T -> bool)
    requires forall j :: 0 <= j < |s| ==> !hit(s[j])
    ensures SpliceDelete.Keep(s, hit) == s
  {
    if s != [] {
      KeepAll(s[1..], hit);
      assert s == [s[0]] + s[1..];
    }
  }

  lemma {:induction false} KeepAllButOne<T>(s: seq<T>, hit: T -> bool, i: nat)
    requires i < |s| && hit(s[i]) && forall j :: 0 <= j < |s| && j != i ==> !hit(s[j])
    ensures SpliceDelete.Keep(s, hit) == s[..i] + s[i + 1..]
  {
    if i == 0 {
      KeepAll(s[1..], hit);
      assert s[..0] + s[1..] == s[1..];
    } else {
      KeepAllButOne(s[1..], hit, i - 1);
      assert s[..i] + s[i + 1..] == [s[0]] + (s[1..][..i - 1] + s[1..][i..]);
    }
  }

  // ---- lookups ----

  /** The one element with the id, or nobody. */
  ghost predicate At<T(!new)>(s: seq<T>, key: T -> string, id: string, i: nat) {
    i < |s| && key(s[i]) == id
  }

  ghost predicate Nowhere<T(!new)>(s: seq<T>, key: T -> string, id: string) {
    forall j :: 0 <= j < |s| ==> key(s[j]) != id
  }

  lemma {:induction false} LookUpAbsent(sources: seq<Source>, id: string)
    requires Nowhere(sources, SourceId, id)
    ensures PathOf(sources, id) == "" && SchemeOf(sources, id) == ""
  {
    if sources != [] {
      var n := |sources| - 1;
      assert SourceId(sources[n]) != id;
      forall j | 0 <= j < n ensures SourceId(sources[..n][j]) != id {
        assert SourceId(sources[j]) != id;
      }
      LookUpAbsent(sources[..n], id);
    }
  }

  /** Of several sources with an id the last one counts. */
  lemma {:induction false} LookUpLast(sources: seq<Source>, id: string, i: nat)
    requires At(sources, SourceId, id, i) && forall j :: i < j < |sources| ==> sources[j].id != id
    ensures PathOf(sources, id) == sources[i].path && SchemeOf(sources, id) == sources[i].scheme
  {
    var n := |sources| - 1;
    if i < n {
      LookUpLast(sources[..n], id, i);
    }
  }

  // ---- what is checked ----

  /** The request checks of CreateExtractSource, scheme by scheme. */
  lemma ValidSourceExactly(s: Source)
    ensures ValidSource(s) <==>
              && s.name != "" && s.path != "" && s.tablename != ""
              && (if s.scheme == "httppost" then s.transport != "" && s.encoding != "" && s.servicetype != ""
                  else if s.scheme == "api" then true
                  else if s.scheme == "csv" then s.regex != "" && s.skipheaders >= 0
                  else if s.scheme == "xlsx" then s.regex != "" && s.skipheaders >= 0 && s.sheetname != ""
                  else s.scheme != "" && s.regex != "")
  {
    assert "httppost"[0] == 'h' && "api"[0] == 'a' && "csv"[0] == 'c' && "xlsx"[0] == 'x';
  }

  /** Which paths a rule may have, scheme by scheme. */
  lemma ValidRulePathExactly(syntax: PathSyntax, path: string)
    ensures ValidRulePath(syntax, path, "xml") == syntax.xml(path)
    ensures ValidRulePath(syntax, path, "jsonpath") == syntax.jsonPath(path)
    ensures ValidRulePath(syntax, path, "csv") <==> Decimal.Atoi(path).Some? && Decimal.Atoi(path).value >= 0
    ensures forall scheme :: scheme !in {"xml", "jsonpath", "csv"} ==> ValidRulePath(syntax, path, scheme)
  {
    assert |"xml"| == 3 && |"csv"| == 3 && "xml"[0] != "csv"[0] && |"jsonpath"| == 8;
  }

  // ---- creates ----

  lemma CreateSourceExactly(syntax: PathSyntax, s: Source, spec: Spec)
    ensures PlanFor(syntax, CreateSource(s), spec)
            == if !ValidSource(s) then Reject(Invalid)
               else if exists i :: 0 <= i < |spec.sources| && spec.sources[i].path == s.path then Reject(PathTaken)
               else Puts([spec.(sources := spec.sources + [s])])
  {
  }

  lemma CreateRuleExactly(syntax: PathSyntax, x: Rule, spec: Spec, scheme: string)
    requires || (Nowhere(spec.sources, SourceId, x.sourceId) && scheme == "")
             || exists i: nat :: At(spec.sources, SourceId, x.sourceId, i) && scheme == spec.sources[i].scheme
                                 && forall j :: i < j < |spec.sources| ==> spec.sources[j].id != x.sourceId
    ensures PlanFor(syntax, CreateRule(x), spec)
            == if x.sourceId == "" || x.columnName == "" || x.columnPath == "" || x.columnType == "" then
                 Reject(Invalid)
               else if !ValidRulePath(syntax, x.columnPath, scheme) then Reject(BadRulePath)
               else Puts([spec.(rules := spec.rules + [x])])
  {
    SchemeIs(spec.sources, x.sourceId, scheme);
  }

  lemma SchemeIs(sources: seq<Source>, id: string, scheme: string)
    requires || (Nowhere(sources, SourceId, id) && scheme == "")
             || exists i: nat :: At(sources, SourceId, id, i) && scheme == sources[i].scheme
                                 && forall j :: i < j < |sources| ==> sources[j].id != id
    ensures SchemeOf(sources, id) == scheme
  {
    if Nowhere(sources, SourceId, id) {
      LookUpAbsent(sources, id);
    } else {
      var i: nat :| At(sources, SourceId, id, i) && scheme == sources[i].scheme
                    && forall j :: i < j < |sources| ==> sources[j].id != id;
      LookUpLast(sources, id, i);
    }
  }

  lemma CreateOthersExactly(syntax: PathSyntax, x: Extension, f: Function, spec: Spec)
    ensures PlanFor(syntax, CreateExtension(x), spec)
            == if x.sourceId == "" || x.name == "" || x.path == "" then Reject(Invalid)
               else Puts([spec.(extensions := spec.extensions + [x])])
    ensures PlanFor(syntax, CreateFunction(f), spec)
            == if f.name == "" || f.source == "" then Reject(Invalid)
               else Puts([spec.(functions := spec.functions + [f])])
  {
  }

  // ---- updates: the object sent holds the request, field for field ----

  /** All fields of the addressed source are those of the request, but for the multiline flag; every
      other source and every other list is as it was. */
  lemma UpdateSourceReadsBack(syntax: PathSyntax, f: Source, spec: Spec, i: nat)
    requires SpecInv(spec) && At(spec.sources, SourceId, f.id, i)
    ensures PlanFor(syntax, UpdateSource(f), spec)
            == if exists j :: 0 <= j < |spec.sources| && j != i && spec.sources[j].path == f.path then Reject(PathTaken)
               else Puts([spec.(sources := spec.sources[i := f.(multiline := spec.sources[i].multiline)])])
  {
    var sources, hit := spec.sources, (x: Source) => x.id == f.id;
    PathOfUnique(sources, i);
    forall j | 0 <= j < |sources| && j != i ensures !hit(sources[j]) && sources[j].path != sources[i].path {
      assert SourceId(sources[j]) != SourceId(sources[i]) && SourcePath(sources[j]) != SourcePath(sources[i]);
    }
    OneHit(sources, hit, SourceEdit(f), i, 0);
    assert SourceEdit(f)(sources[i]) == f.(multiline := sources[i].multiline);
    assert Taken(sources, f.path) <==> exists j :: 0 <= j < |sources| && sources[j].path == f.path;
  }

  lemma UpdateMissingSource(syntax: PathSyntax, f: Source, spec: Spec)
    requires Nowhere(spec.sources, SourceId, f.id)
    ensures PlanFor(syntax, UpdateSource(f), spec)
            == if f.path != "" && exists j :: 0 <= j < |spec.sources| && spec.sources[j].path == f.path then
                 Reject(PathTaken)
               else if spec.sources == [] then Reject(NoneExist)
               else Puts([])
  {
    LookUpAbsent(spec.sources, f.id);
    forall j | 0 <= j < |spec.sources| ensures spec.sources[j].id != f.id {
      assert SourceId(spec.sources[j]) != f.id;
    }
    NoHits(spec.sources, (x: Source) => x.id == f.id, SourceEdit(f), 0);
  }

  /** A rule keeps its type and its owner; all other fields are those of the request. */
  lemma UpdateRuleReadsBack(syntax: PathSyntax, f: Rule, spec: Spec, i: nat)
    requires SpecInv(spec) && At(spec.rules, RuleId, f.id, i)
    ensures var was := spec.rules[i];
            PlanFor(syntax, UpdateRule(f), spec)
            == if !ValidRulePath(syntax, f.columnPath, SchemeOf(spec.sources, f.sourceId)) then Reject(BadRulePath)
               else Puts([spec.(rules := spec.rules[i := f.(columnType := was.columnType, sourceId := was.sourceId)])])
  {
    forall j | 0 <= j < |spec.rules| && j != i ensures spec.rules[j].id != f.id {
      assert RuleId(spec.rules[j]) != RuleId(spec.rules[i]);
    }
    OneHit(spec.rules, (x: Rule) => x.id == f.id, RuleEdit(f), i, 0);
  }

  lemma UpdateFunctionReadsBack(syntax: PathSyntax, f: Function, spec: Spec, i: nat)
    requires SpecInv(spec) && At(spec.functions, FunctionId, f.id, i)
    ensures PlanFor(syntax, UpdateFunction(f), spec) == Puts([spec.(functions := spec.functions[i := f])])
  {
    forall j | 0 <= j < |spec.functions| && j != i ensures spec.functions[j].id != f.id {
      assert FunctionId(spec.functions[j]) != FunctionId(spec.functions[i]);
    }
    OneHit(spec.functions, (x: Function) => x.id == f.id, FunctionEdit(f), i, 0);
  }

  lemma ExtensionPlan(syntax: PathSyntax, f: Extension, spec: Spec)
    requires spec.extensions != []
    ensures PlanFor(syntax, UpdateExtension(f), spec)
            == Puts(Map((l: seq<Extension>) => spec.(extensions := l),
                        Overwrites(spec.extensions, (x: Extension) => x.id == f.id, ExtensionEdit(f), 0)))
  {
    hide Overwrites, ExtensionEdit;
  }

  /** Extensions with one id: the first PUT holds the request at the first of them, the last PUT at
      all of them; the owner stays. */
  lemma UpdateExtensionReadsBack(syntax: PathSyntax, f: Extension, spec: Spec, i: nat)
    requires i < |spec.extensions| && spec.extensions[i].id == f.id
    requires forall j :: 0 <= j < i ==> spec.extensions[j].id != f.id
    ensures PlanFor(syntax, UpdateExtension(f), spec).Puts?
    ensures var was, ps := spec.extensions, PlanFor(syntax, UpdateExtension(f), spec).specs;
            && ps != []
            && ps[0] == spec.(extensions := was[i := f.(sourceId := was[i].sourceId)])
            && (forall k :: 0 <= k < |ps| ==> ps[k] == spec.(extensions := ps[k].extensions))
            && |ps[|ps| - 1].extensions| == |was|
            && forall j :: 0 <= j < |was| ==>
                 ps[|ps| - 1].extensions[j] == if was[j].id == f.id then f.(sourceId := was[j].sourceId) else was[j]
  {
    var s, hit := spec.extensions, (x: Extension) => x.id == f.id;
    ExtensionPlan(syntax, f, spec);
    EditLands(s, hit, ExtensionEdit(f), i);
    FirstWrite(s, hit, ExtensionEdit(f));
    LastWriteEditsAll(s, hit, ExtensionEdit(f), 0);
    hide PlanFor, Overwrites, EditFirst;
    assert hit(s[i]) && ExtensionEdit(f)(s[i]) == f.(sourceId := s[i].sourceId);
    assert forall j :: 0 <= j < |s| && hit(s[j]) ==> ExtensionEdit(f)(s[j]) == f.(sourceId := s[j].sourceId);
    var lists := Overwrites(s, hit, ExtensionEdit(f), 0);
    hide ExtensionEdit;
    assert lists != [];
  }

  // ---- deletes on unique ids ----

  lemma ScanOfUnique<T(!new)>(s: seq<T>, key: T -> string, id: string, hit: T -> bool)
    requires UniqueBy(s, key) && forall x :: hit(x) <==> key(x) == id
    ensures forall i: nat :: At(s, key, id, i) ==> SpliceDelete.Scan(s, hit) == s[..i] + s[i + 1..]
    ensures Nowhere(s, key, id) ==> SpliceDelete.Scan(s, hit) == s
  {
    DeleteIsKeep(s, key, id, hit);
    hide SpliceDelete.Scan, SpliceDelete.Keep;
    forall i: nat | At(s, key, id, i) ensures SpliceDelete.Scan(s, hit) == s[..i] + s[i + 1..] {
      KeepAllButOne(s, hit, i);
    }
    if Nowhere(s, key, id) {
      KeepAll(s, hit);
    }
  }

  /** The addressed element goes, all others stay in order. */
  lemma DeleteReadsBack(syntax: PathSyntax, id: string, spec: Spec, i: nat)
    requires SpecInv(spec)
    ensures At(spec.sources, SourceId, id, i) ==>
              PlanFor(syntax, DeleteSource(id), spec)
              == Puts([spec.(sources := spec.sources[..i] + spec.sources[i + 1..])])
    ensures At(spec.rules, RuleId, id, i) ==>
              PlanFor(syntax, DeleteRule(id), spec) == Puts([spec.(rules := spec.rules[..i] + spec.rules[i + 1..])])
    ensures At(spec.functions, FunctionId, id, i) ==>
              PlanFor(syntax, DeleteFunction(id), spec)
              == Puts([spec.(functions := spec.functions[..i] + spec.functions[i + 1..])])
  {
    ScanOfUnique(spec.sources, SourceId, id, (x: Source) => x.id == id);
    ScanOfUnique(spec.rules, RuleId, id, (x: Rule) => x.id == id);
    ScanOfUnique(spec.functions, FunctionId, id, (x: Function) => x.id == id);
    hide SpliceDelete.Scan, SpecInv;
  }

  /** Extension ids repeat, and then the delete leaves what its scan leaves. */
  lemma DeleteExtensionScans(syntax: PathSyntax, id: string, spec: Spec)
    ensures PlanFor(syntax, DeleteExtension(id), spec)
            == if spec.extensions == [] then Reject(NoneExist)
               else Puts([spec.(extensions := SpliceDelete.Scan(spec.extensions, (x: Extension) => x.id == id))])
  {
  }

  /** A delete that addresses nobody writes the object back as it was, unless the list is empty. */
  lemma DeleteOfNobody(syntax: PathSyntax, id: string, spec: Spec)
    requires SpecInv(spec)
    ensures Nowhere(spec.sources, SourceId, id) ==>
              PlanFor(syntax, DeleteSource(id), spec) == if spec.sources == [] then Reject(NoneExist) else Puts([spec])
    ensures Nowhere(spec.rules, RuleId, id) ==>
              PlanFor(syntax, DeleteRule(id), spec) == if spec.rules == [] then Reject(NoneExist) else Puts([spec])
    ensures Nowhere(spec.functions, FunctionId, id) ==>
              PlanFor(syntax, DeleteFunction(id), spec)
              == if spec.functions == [] then Reject(NoneExist) else Puts([spec])
  {
    ScanOfUnique(spec.sources, SourceId, id, (x: Source) => x.id == id);
    ScanOfUnique(spec.rules, RuleId, id, (x: Rule) => x.id == id);
    ScanOfUnique(spec.functions, FunctionId, id, (x: Function) => x.id == id);
    hide SpliceDelete.Scan, SpecInv;
  }

  /** Updates that address nobody, on lists that are not empty, write nothing. */
  lemma UpdateMissingRule(syntax: PathSyntax, f: Rule, spec: Spec)
    requires forall j :: 0 <= j < |spec.rules| ==> spec.rules[j].id != f.id
    ensures PlanFor(syntax, UpdateRule(f), spec)
            == if !ValidRulePath(syntax, f.columnPath, SchemeOf(spec.sources, f.sourceId)) then Reject(BadRulePath)
               else if spec.rules == [] then Reject(NoneExist) else Puts([])
  {
    NoHits(spec.rules, (x: Rule) => x.id == f.id, RuleEdit(f), 0);
    hide ValidRulePath, SchemeOf, Overwrites;
  }

  lemma UpdateMissingExtension(syntax: PathSyntax, f: Extension, spec: Spec)
    requires forall j :: 0 <= j < |spec.extensions| ==> spec.extensions[j].id != f.id
    ensures PlanFor(syntax, UpdateExtension(f), spec)
            == if spec.extensions == [] then Reject(NoneExist) else Puts([])
  {
    NoHits(spec.extensions, (x: Extension) => x.id == f.id, ExtensionEdit(f), 0);
    hide Overwrites;
  }

  lemma UpdateMissingFunction(syntax: PathSyntax, f: Function, spec: Spec)
    requires forall j :: 0 <= j < |spec.functions| ==> spec.functions[j].id != f.id
    ensures PlanFor(syntax, UpdateFunction(f), spec)
            == if spec.functions == [] then Reject(NoneExist) else Puts([])
  {
    NoHits(spec.functions, (x: Function) => x.id == f.id, FunctionEdit(f), 0);
    hide Overwrites;
  }

  /** The operator's two steps. */
  lemma OperatorWrites(syntax: PathSyntax, id: string, serial: string, spec: Spec)
    ensures PlanFor(syntax, ProcessId(id), spec) == Puts(if spec.id == "" then [spec.(id := id)] else [])
    ensures PlanFor(syntax, ProcessCreds(serial), spec)
            == Puts([spec.(dbCreds := Generated(serial), serviceCreds := Generated(serial))])
  {
  }
}
