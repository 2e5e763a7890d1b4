/** The records of the pipeline custom resource that the editors and the row engine share. */
module Domain {
  import opened Wrappers
  import Decimal

  const XLSX_SCHEME := "xlsx"
  const CSV_SCHEME := "csv"
  const XML_SCHEME := "xml"
  const JSON_SCHEME := "json"
  const JSONPATH_SCHEME := "jsonpath"
  const API_SCHEME := "api"
  const HTTPPOST_SCHEME := "httppost"

  datatype Source = Source(
    id: string, name: string, path: string, scheme: string, regex: string, tablename: string,
    cronexpression: string, skipheaders: int, multiline: string, sheetname: string, port: int,
    encoding: string, transport: string, servicetype: string)

  datatype Rule = Rule(
    id: string, sourceId: string, columnName: string, columnPath: string, columnType: string,
    matchValues: string, transform: string)

  datatype Extension = Extension(id: string, sourceId: string, name: string, path: string)

  datatype Function = Function(id: string, name: string, source: string)

  /** The two third-party path parsers, as the sets of texts they accept. */
  datatype PathSyntax = PathSyntax(xml: string -> bool, jsonPath: string -> bool)

  /** validateRulePath: a scheme it does not know accepts every path. */
  predicate ValidRulePath(syntax: PathSyntax, path: string, scheme: string) {
    if scheme == XML_SCHEME then syntax.xml(path)
    else if scheme == CSV_SCHEME then
      match Decimal.Atoi(path)
      case Some(v) => v >= 0
      case None => false
    else if scheme == JSONPATH_SCHEME then syntax.jsonPath(path)
    else true
  }

  predicate Distinct<T(==)>(s: seq<T>) {
    forall i, j :: 0 <= i < j < |s| ==> s[i] != s[j]
  }

  ghost predicate UniqueBy<T(!new)>(s: seq<T>, key: T -> string) {
    forall i, j :: 0 <= i < j < |s| ==> key(s[i]) != key(s[j])
  }

  const SourceId := (s: Source) => s.id
  const SourcePath := (s: Source) => s.path
  const SourceName := (s: Source) => s.name
  const RuleId := (r: Rule) => r.id
  const RuleColumn := (r: Rule) => r.columnName
  const RulePath := (r: Rule) => r.columnPath
  const FunctionId := (f: Function) => f.id

  function Map<A, B>(f: A -> B, s: seq<A>): (r: seq<B>)
    ensures |r| == |s| && forall i :: 0 <= i < |s| ==> r[i] == f(s[i])
  {
    seq(|s|, i requires 0 <= i < |s| => f(s[i]))
  }
}
