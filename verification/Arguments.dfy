/** The two emitters of tools/gen_management.py that must agree on every operation: the
    signature (`emit_operation`, with its auto-paging companion) and the generated test's
    call (`call_arguments`). Argument lists are modelled by type and value, not as text. */
module Arguments {
  import opened Outcomes

  datatype PathParam = PathParam(name: string, format: Option<string>)

  /** A query parameter's type: one name, or a list that may contain "null". */
  datatype QueryType = OneType(name: string) | AnyOf(names: seq<string>)

  datatype QueryParam = QueryParam(name: string, required: bool, ty: QueryType)

  datatype Body = NoBody | SchemaBody(schema: string) | UntypedBody

  datatype Operation = Operation(pathParams: seq<PathParam>, queryParams: seq<QueryParam>, paginated: bool, body: Body)

  /** Rust types in argument position. */
  datatype ArgType =
    | UuidArg | StrArg | I64Arg | BoolArg | OptionArg(inner: ArgType) | FilterArg(name: string)
    | PageArg | ModelArg(schema: string) | JsonArg

  /** Argument expressions of the generated test. */
  datatype Value =
    | ExampleId | ExampleStr | One | True | NoValue | DefaultFilter(name: string)
    | FirstPage | StructLiteral(schema: string) | CheckedBody | EmptyJson

  const IMPLICIT_TENANT_NAMESPACES: set<string> :=
    {"directory", "email_config", "saml", "settings", "ssf", "webauthn_policy"}

  /** The operation whose test body is written by hand, and that body's model. */
  const PRECHECKED: (string, string) := ("saml", "parse_sp_metadata")
  const PRECHECKED_MODEL: string := "ParseSamlSpMetadata"

  predicate HasType(v: Value, t: ArgType) {
    match v
    case ExampleId => t == UuidArg
    case ExampleStr => t == StrArg
    case One => t == I64Arg
    case True => t == BoolArg
    case NoValue => t.OptionArg?
    case DefaultFilter(name) => t == FilterArg(name)
    case FirstPage => t == PageArg
    case StructLiteral(schema) => t == ModelArg(schema)
    case CheckedBody => t == ModelArg(PRECHECKED_MODEL)
    case EmptyJson => t == JsonArg
  }

  function ParamRustType(format: Option<string>): ArgType {
    if format == Some("uuid") then UuidArg else StrArg
  }

  function FirstNonNull(names: seq<string>): string {
    if names == [] then "string" else if names[0] != "null" then names[0] else FirstNonNull(names[1..])
  }

  function QueryRustType(ty: QueryType): ArgType {
    var name := if ty.AnyOf? then FirstNonNull(ty.names) else ty.name;
    if name == "integer" then I64Arg else if name == "boolean" then BoolArg else StrArg
  }

  function ImplicitParams(namespace: string, op: Operation): set<string> {
    var names := set p | p in op.pathParams :: p.name;
    (if "org_id" in names then {"org_id"} else {})
    + (if "tenant_id" in names && namespace in IMPLICIT_TENANT_NAMESPACES then {"tenant_id"} else {})
  }

  predicate Owned(op: Operation, name: string) {
    name == "offset" || name == "limit" || (op.paginated && name == "search")
  }

  /** The query parameters that become arguments, those with the given requiredness. */
  function ExtraQuery(op: Operation, params: seq<QueryParam>, required: bool): seq<QueryParam> {
    if params == [] then []
    else if !Owned(op, params[0].name) && params[0].required == required then
      [params[0]] + ExtraQuery(op, params[1..], required)
    else ExtraQuery(op, params[1..], required)
  }

  function FilterName(namespace: string, opname: string): string {
    namespace + "." + opname + ".Filter"
  }

  // --- The lists, as specified ---

  function PathTypes(params: seq<PathParam>, implicit: set<string>): seq<ArgType> {
    if params == [] then []
    else if params[0].name in implicit then PathTypes(params[1..], implicit)
    else [ParamRustType(params[0].format)] + PathTypes(params[1..], implicit)
  }

  function ExampleFor(format: Option<string>): Value {
    if format == Some("uuid") then ExampleId else ExampleStr
  }

  function PathValues(params: seq<PathParam>, implicit: set<string>): seq<Value> {
    if params == [] then []
    else if params[0].name in implicit then PathValues(params[1..], implicit)
    else [ExampleFor(params[0].format)] + PathValues(params[1..], implicit)
  }

  function Types(params: seq<QueryParam>): seq<ArgType> {
    seq(|params|, i requires 0 <= i < |params| => QueryRustType(params[i].ty))
  }

  function ValueFor(t: ArgType): Value {
    if t == I64Arg then One else if t == BoolArg then True else ExampleStr
  }

  function Values(params: seq<QueryParam>): seq<Value> {
    seq(|params|, i requires 0 <= i < |params| => ValueFor(QueryRustType(params[i].ty)))
  }

  function OptionTypes(params: seq<QueryParam>): seq<ArgType> {
    seq(|params|, i requires 0 <= i < |params| => OptionArg(QueryRustType(params[i].ty)))
  }

  function NoValues(n: nat): seq<Value> {
    seq(n, _ => NoValue)
  }

  function Lead(namespace: string, opname: string, op: Operation): seq<ArgType> {
    var optional := ExtraQuery(op, op.queryParams, false);
    PathTypes(op.pathParams, ImplicitParams(namespace, op)) + Types(ExtraQuery(op, op.queryParams, true))
    + if |optional| > 2 then [FilterArg(FilterName(namespace, opname))]
      else OptionTypes(optional)
  }

  function LeadValues(namespace: string, opname: string, op: Operation): seq<Value> {
    var optional := ExtraQuery(op, op.queryParams, false);
    PathValues(op.pathParams, ImplicitParams(namespace, op)) + Values(ExtraQuery(op, op.queryParams, true))
    + if |optional| > 2 then [DefaultFilter(FilterName(namespace, opname))] else NoValues(|optional|)
  }

  function PageTypes(op: Operation): seq<ArgType> {
    if op.paginated then [PageArg] else []
  }

  function BodyTypes(op: Operation): seq<ArgType> {
    match op.body
    case NoBody => []
    case SchemaBody(schema) => [ModelArg(schema)]
    case UntypedBody => [JsonArg]
  }

  function BodyValues(namespace: string, opname: string, op: Operation): seq<Value> {
    match op.body
    case NoBody => []
    case SchemaBody(schema) => if (namespace, opname) == PRECHECKED then [CheckedBody] else [StructLiteral(schema)]
    case UntypedBody => [EmptyJson]
  }

  /** The method's parameters after `&self`. */
  function Formals(namespace: string, opname: string, op: Operation): seq<ArgType> {
    Lead(namespace, opname, op) + PageTypes(op) + BodyTypes(op)
  }

  /** The arguments the generated test passes. */
  function Actuals(namespace: string, opname: string, op: Operation): seq<Value> {
    LeadValues(namespace, opname, op) + (if op.paginated then [FirstPage] else []) + BodyValues(namespace, opname, op)
  }

  // --- Which parameters become arguments, and of what type ---

  /** Implicit are the tenant's and the organisation's identifiers, where the path has them
      and the namespace supplies them. */
  lemma ImplicitIff(namespace: string, op: Operation, name: string)
    ensures name in ImplicitParams(namespace, op)
       <==> && (exists i :: 0 <= i < |op.pathParams| && op.pathParams[i].name == name)
            && (name == "org_id"
                || (name == "tenant_id"
                    && namespace in ["directory", "email_config", "saml", "settings", "ssf", "webauthn_policy"]))
  {
    var names := set p | p in op.pathParams :: p.name;
    assert name in names <==> exists i :: 0 <= i < |op.pathParams| && op.pathParams[i].name == name;
  }

  /** The `i`-th path parameter, unless implicit, is an argument after those before it: a
      `Uuid` when its format says so, and otherwise text. */
  lemma {:induction false} PathArgumentIs(params: seq<PathParam>, implicit: set<string>, i: nat)
    requires i < |params| && params[i].name !in implicit
    ensures var n := |PathTypes(params[..i], implicit)|;
            && n < |PathTypes(params, implicit)|
            && (PathTypes(params, implicit)[n] == UuidArg <==> params[i].format == Some("uuid"))
            && (PathTypes(params, implicit)[n] == StrArg <==> params[i].format != Some("uuid"))
  {
    if i > 0 {
      PathArgumentIs(params[1..], implicit, i - 1);
      assert params[..i][1..] == params[1..][..i - 1] && params[..i][0] == params[0];
    }
  }

  /** And every path argument is one of those. */
  lemma {:induction false} PathArgumentsAreThose(params: seq<PathParam>, implicit: set<string>, n: nat) returns (i: nat)
    requires n < |PathTypes(params, implicit)|
    ensures i < |params| && params[i].name !in implicit && n == |PathTypes(params[..i], implicit)|
  {
    if params[0].name !in implicit && n == 0 {
      i := 0;
      assert params[..0] == [];
    } else {
      var k := PathArgumentsAreThose(params[1..], implicit, if params[0].name in implicit then n else n - 1);
      i := k + 1;
      assert params[..i][1..] == params[1..][..k] && params[..i][0] == params[0];
    }
  }

  /** A query parameter of this requiredness is an argument unless the page request
      carries it, in the order of the operation. */
  lemma {:induction false} ExtraQueryIff(op: Operation, params: seq<QueryParam>, required: bool, q: QueryParam)
    ensures q in ExtraQuery(op, params, required)
       <==> && q in params && q.required == required
            && q.name !in ["offset", "limit"] && (op.paginated ==> q.name != "search")
  {
    if params != [] {
      ExtraQueryIff(op, params[1..], required, q);
    }
  }

  lemma {:induction false} ExtraQueryKeepsOrder(op: Operation, a: seq<QueryParam>, b: seq<QueryParam>, required: bool)
    ensures ExtraQuery(op, a + b, required) == ExtraQuery(op, a, required) + ExtraQuery(op, b, required)
    ensures |ExtraQuery(op, a, required)| <= |a|
  {
    if a == [] {
      assert a + b == b;
    } else {
      ExtraQueryKeepsOrder(op, a[1..], b, required);
      assert (a + b)[1..] == a[1..] + b;
    }
  }

  /** The type a parameter declares: its one type, or the first of several that is not null. */
  ghost predicate Declares(ty: QueryType, name: string) {
    match ty
    case OneType(one) => one == name
    case AnyOf(names) =>
      exists i :: 0 <= i < |names| && names[i] == name != "null" && forall j :: 0 <= j < i ==> names[j] == "null"
  }

  lemma {:induction false} FirstNonNullIff(names: seq<string>, name: string)
    requires name != "string" && name != "null"
    ensures FirstNonNull(names) == name <==> Declares(AnyOf(names), name)
  {
    if names != [] {
      var rest := names[1..];
      FirstNonNullIff(rest, name);
      if names[0] == "null" {
        if i :| 0 <= i < |rest| && rest[i] == name != "null" && forall j :: 0 <= j < i ==> rest[j] == "null" {
          assert names[i + 1] == name && forall j :: 0 < j < i + 1 ==> names[j] == rest[j - 1];
        }
        if i :| 0 <= i < |names| && names[i] == name != "null" && forall j :: 0 <= j < i ==> names[j] == "null" {
          assert rest[i - 1] == name && forall j :: 0 <= j < i - 1 ==> rest[j] == names[j + 1];
        }
      } else if names[0] == name {
        assert Declares(AnyOf(names), name);
      }
    }
  }

  /** Integers are `i64`, booleans `bool`, and everything else is text. */
  lemma QueryTypeIff(ty: QueryType)
    ensures QueryRustType(ty) == I64Arg <==> Declares(ty, "integer")
    ensures QueryRustType(ty) == BoolArg <==> Declares(ty, "boolean")
    ensures QueryRustType(ty) in {I64Arg, BoolArg, StrArg}
  {
    if ty.AnyOf? {
      FirstNonNullIff(ty.names, "integer");
      FirstNonNullIff(ty.names, "boolean");
    }
  }

  // --- The emitters ---

  method EmitPath(params: seq<PathParam>, implicit: set<string>) returns (args: seq<ArgType>)
    ensures args == PathTypes(params, implicit)
  {
    args := [];
    assert params[0..] == params;
    for i := 0 to |params|
      invariant args + PathTypes(params[i..], implicit) == PathTypes(params, implicit)
    {
      assert params[i..][1..] == params[i + 1..];
      if params[i].name !in implicit {
        args := args + [ParamRustType(params[i].format)];
      }
    }
  }

  method EmitArguments(namespace: string, opname: string, op: Operation) returns (args: seq<ArgType>)
    ensures args == Formals(namespace, opname, op)
  {
    hide ImplicitParams, PathTypes, QueryRustType, FilterName, ExtraQuery;
    args := EmitPath(op.pathParams, ImplicitParams(namespace, op));
    var requiredQ, optionalQ := ExtraQuery(op, op.queryParams, true), ExtraQuery(op, op.queryParams, false);
    ghost var path := args;
    for i := 0 to |requiredQ|
      invariant args == path + Types(requiredQ)[..i]
    {
      args := args + [QueryRustType(requiredQ[i].ty)];
    }
    assert args == path + Types(requiredQ);
    ghost var required := args;
    if |optionalQ| > 2 {
      args := args + [FilterArg(FilterName(namespace, opname))];
    } else {
      for i := 0 to |optionalQ|
        invariant args == required + OptionTypes(optionalQ)[..i]
      {
        args := args + [OptionArg(QueryRustType(optionalQ[i].ty))];
      }
    }
    assert args == Lead(namespace, opname, op);
    if op.paginated {
      args := args + [PageArg];
    }
    match op.body {
      case NoBody =>
      case SchemaBody(schema) => args := args + [ModelArg(schema)];
      case UntypedBody => args := args + [JsonArg];
    }
  }

  method CallPath(params: seq<PathParam>, implicit: set<string>) returns (args: seq<Value>)
    ensures args == PathValues(params, implicit)
  {
    args := [];
    assert params[0..] == params;
    for i := 0 to |params|
      invariant args + PathValues(params[i..], implicit) == PathValues(params, implicit)
    {
      assert params[i..][1..] == params[i + 1..];
      if params[i].name in implicit {
        continue;
      }
      args := args + [ExampleFor(params[i].format)];
    }
  }

  method CallArguments(namespace: string, opname: string, op: Operation) returns (args: seq<Value>)
    ensures args == Actuals(namespace, opname, op)
  {
    hide ImplicitParams, PathValues, QueryRustType, FilterName, ExtraQuery;
    args := CallPath(op.pathParams, ImplicitParams(namespace, op));
    var requiredQ, optionalQ := ExtraQuery(op, op.queryParams, true), ExtraQuery(op, op.queryParams, false);
    ghost var path := args;
    for i := 0 to |requiredQ|
      invariant args == path + Values(requiredQ)[..i]
    {
      args := args + [ValueFor(QueryRustType(requiredQ[i].ty))];
    }
    assert args == path + Values(requiredQ);
    if |optionalQ| > 2 {
      args := args + [DefaultFilter(FilterName(namespace, opname))];
    } else {
      args := args + NoValues(|optionalQ|);
    }
    assert args == LeadValues(namespace, opname, op);
    if op.paginated {
      args := args + [FirstPage];
    }
    match op.body {
      case NoBody =>
      case SchemaBody(schema) =>
        args := args + if (namespace, opname) == PRECHECKED then [CheckedBody] else [StructLiteral(schema)];
      case UntypedBody => args := args + [EmptyJson];
    }
  }

  // --- Agreement ---

  ghost predicate Accepts(types: seq<ArgType>, values: seq<Value>) {
    |types| == |values| && forall i :: 0 <= i < |types| ==> HasType(values[i], types[i])
  }

  lemma AcceptsConcat(t1: seq<ArgType>, v1: seq<Value>, t2: seq<ArgType>, v2: seq<Value>)
    requires |t1| == |v1| && |t2| == |v2|
    ensures Accepts(t1 + t2, v1 + v2) <==> Accepts(t1, v1) && Accepts(t2, v2)
  {
    if Accepts(t1 + t2, v1 + v2) {
      assert forall i :: 0 <= i < |t1| ==> (t1 + t2)[i] == t1[i] && (v1 + v2)[i] == v1[i];
      assert forall i :: 0 <= i < |t2| ==> (t1 + t2)[|t1| + i] == t2[i] && (v1 + v2)[|v1| + i] == v2[i];
    }
  }

  lemma {:induction false} PathAccepted(params: seq<PathParam>, implicit: set<string>)
    ensures Accepts(PathTypes(params, implicit), PathValues(params, implicit))
  {
    if params != [] {
      PathAccepted(params[1..], implicit);
    }
  }

  lemma QueryAccepted(params: seq<QueryParam>)
    ensures Accepts(Types(params), Values(params)) && Accepts(OptionTypes(params), NoValues(|params|))
  {
  }

  lemma LeadAccepted(namespace: string, opname: string, op: Operation)
    ensures Accepts(Lead(namespace, opname, op), LeadValues(namespace, opname, op))
  {
    var implicit := ImplicitParams(namespace, op);
    var (required, optional) := (ExtraQuery(op, op.queryParams, true), ExtraQuery(op, op.queryParams, false));
    var (types, values) := (PathTypes(op.pathParams, implicit), PathValues(op.pathParams, implicit));
    PathAccepted(op.pathParams, implicit);
    QueryAccepted(required);
    QueryAccepted(optional);
    hide Types, Values, OptionTypes, NoValues, ImplicitParams, ExtraQuery;
    hide PathTypes, PathValues, QueryRustType, FilterName;
    AcceptsConcat(types, values, Types(required), Values(required));
    if |optional| > 2 {
      var name := FilterName(namespace, opname);
      AcceptsConcat(types + Types(required), values + Values(required), [FilterArg(name)], [DefaultFilter(name)]);
    } else {
      AcceptsConcat(types + Types(required), values + Values(required), OptionTypes(optional), NoValues(|optional|));
    }
  }

  /** The hand-written body fits, when this operation is the one it was written for. */
  predicate BodyFits(namespace: string, opname: string, op: Operation) {
    namespace == "saml" && opname == "parse_sp_metadata" && op.body.SchemaBody? ==>
      op.body.schema == "ParseSamlSpMetadata"
  }

  /** For every operation the test's call type-checks against the signature, argument by
      argument, exactly when any hand-written body is of the operation's own model. */
  lemma CallMatchesSignatureIff(namespace: string, opname: string, op: Operation)
    ensures Accepts(Formals(namespace, opname, op), Actuals(namespace, opname, op)) <==> BodyFits(namespace, opname, op)
  {
    var (lead, values) := (Lead(namespace, opname, op), LeadValues(namespace, opname, op));
    var page := if op.paginated then [FirstPage] else [];
    LeadAccepted(namespace, opname, op);
    AcceptsConcat(lead, values, PageTypes(op), page);
    AcceptsConcat(lead + PageTypes(op), values + page, BodyTypes(op), BodyValues(namespace, opname, op));
    if op.body.SchemaBody? {
      assert BodyTypes(op)[0] == ModelArg(op.body.schema);
    }
  }

  // --- The auto-paging companion ---

  /** Every argument but the page request. */
  function WithoutPage(types: seq<ArgType>): seq<ArgType> {
    if types == [] then []
    else if types[0] == PageArg then WithoutPage(types[1..])
    else [types[0]] + WithoutPage(types[1..])
  }

  function WithoutFirstPage(values: seq<Value>): seq<Value> {
    if values == [] then []
    else if values[0] == FirstPage then WithoutFirstPage(values[1..])
    else [values[0]] + WithoutFirstPage(values[1..])
  }

  lemma {:induction false} WithoutPageConcat(a: seq<ArgType>, b: seq<ArgType>)
    ensures WithoutPage(a + b) == WithoutPage(a) + WithoutPage(b)
  {
    if a == [] {
      assert a + b == b;
    } else {
      assert (a + b)[0] == a[0] && (a + b)[1..] == a[1..] + b;
      WithoutPageConcat(a[1..], b);
    }
  }

  lemma {:induction false} NoPageToDrop(types: seq<ArgType>)
    requires forall i :: 0 <= i < |types| ==> types[i] != PageArg
    ensures WithoutPage(types) == types
  {
    if types != [] {
      NoPageToDrop(types[1..]);
    }
  }

  /** Dropping the page from a signature and its page value from an accepted call. */
  lemma {:induction false} DropKeepsAccepted(types: seq<ArgType>, values: seq<Value>)
    requires Accepts(types, values)
    ensures Accepts(WithoutPage(types), WithoutFirstPage(values))
  {
    if types != [] {
      assert HasType(values[0], types[0]);
      assert forall i :: 0 <= i < |types| - 1 ==> types[1..][i] == types[i + 1] && values[1..][i] == values[i + 1];
      DropKeepsAccepted(types[1..], values[1..]);
    }
  }

  lemma LeadHasNoPage(namespace: string, opname: string, op: Operation)
    ensures forall i :: 0 <= i < |Lead(namespace, opname, op)| ==> Lead(namespace, opname, op)[i] != PageArg
  {
    LeadAccepted(namespace, opname, op);
    PathHasNoPage(op.pathParams, ImplicitParams(namespace, op));
  }

  lemma {:induction false} PathHasNoPage(params: seq<PathParam>, implicit: set<string>)
    ensures forall i :: 0 <= i < |PathTypes(params, implicit)| ==> PathTypes(params, implicit)[i] != PageArg
  {
    if params != [] {
      PathHasNoPage(params[1..], implicit);
    }
  }

  /** `<method>_all(lead…, start: PageRequest)` */
  function AllFormals(namespace: string, opname: string, op: Operation): seq<ArgType> {
    WithoutPage(Formals(namespace, opname, op)) + [PageArg]
  }

  /** The generated test's call of the companion type-checks whenever its call of the
      method itself does. */
  lemma PagingCallMatches(namespace: string, opname: string, op: Operation)
    requires op.paginated && BodyFits(namespace, opname, op)
    ensures Accepts(AllFormals(namespace, opname, op), WithoutFirstPage(Actuals(namespace, opname, op)) + [FirstPage])
  {
    CallMatchesSignatureIff(namespace, opname, op);
    DropKeepsAccepted(Formals(namespace, opname, op), Actuals(namespace, opname, op));
    var types := WithoutPage(Formals(namespace, opname, op));
    AcceptsConcat(types, WithoutFirstPage(Actuals(namespace, opname, op)), [PageArg], [FirstPage]);
  }

  /** Inside, the companion forwards its leading arguments and then the page. That is the
      method's own parameter list exactly when the operation takes no body: a body's
      parameter comes after the page, and would be forwarded before it. */
  lemma ForwardingMatchesIff(namespace: string, opname: string, op: Operation)
    requires op.paginated
    ensures WithoutPage(Formals(namespace, opname, op)) + [PageArg] == Formals(namespace, opname, op)
       <==> op.body.NoBody?
  {
    var lead := Lead(namespace, opname, op);
    LeadHasNoPage(namespace, opname, op);
    NoPageToDrop(lead);
    NoPageToDrop(BodyTypes(op));
    WithoutPageConcat(lead + PageTypes(op), BodyTypes(op));
    WithoutPageConcat(lead, PageTypes(op));
    assert WithoutPage([PageArg]) == WithoutPage([PageArg][1..]) == [];
    assert WithoutPage(Formals(namespace, opname, op)) == lead + BodyTypes(op);
    if !op.body.NoBody? {
      var formals := Formals(namespace, opname, op);
      assert formals[|lead|] == PageArg && (lead + BodyTypes(op) + [PageArg])[|lead|] == BodyTypes(op)[0];
    }
  }
}
