/** Resolving idempotency policies: which operations carry a caller-supplied idempotency
    header, and the parameter that describes it. */
module Idempotency {
  import opened Wrappers
  import opened JsonValues

  const EXTENSION := "x-poolster-idempotency"
  const RESOLVED := "x-poolster-idempotency-resolved"

  datatype Rule = Rule(enabled: bool, header: string, autoGenerate: bool)
  datatype Config = Config(defaults: Option<Rule>, operations: map<string, Rule>)

  datatype Kind = StringKind | OtherKind(name: string)

  /** Of a schema, what decides whether it is a plain string; `others` are titles,
      descriptions and further annotations. */
  datatype Schema = Schema(kind: Kind, nullable: bool, nullish: bool, optional: bool, enumValues: seq<Json>,
    constValue: Option<Json>, format: Option<string>, constraints: Fields, default_: Option<Json>, others: Fields)

  datatype Parameter = Parameter(name: string, location: string, required: bool, schema: Option<Schema>, description: Option<string>, annotations: Fields)

  /** `others` are the method, path, bodies, responses and security of the operation. */
  datatype Operation = Operation(id: string, parameters: seq<Parameter>, annotations: Fields, others: Fields)

  type Api = seq<Operation>

  datatype Problem =
    | NotOneOperation(id: string)
    | BadExtension(id: string)
    | InvalidHeader(id: string)
    | ReservedHeader(id: string)
    | NoIdentifier(id: string)
    | Collision(id: string)
    | Duplicate(id: string)
    | NoSchema(id: string)
    | NotPlain(id: string)
    | NotOptional(id: string)

  // ----- names

  function Lower(c: char): char {
    if 'A' <= c <= 'Z' then (c as int + 32) as char else c
  }

  function LowerAll(text: string): string {
    seq(|text|, i requires 0 <= i < |text| => Lower(text[i]))
  }

  predicate SameHeader(a: string, b: string) {
    LowerAll(a) == LowerAll(b)
  }

  predicate Alphanumeric(c: char) {
    'a' <= c <= 'z' || 'A' <= c <= 'Z' || '0' <= c <= '9'
  }

  predicate ValidHeader(text: string) {
    text != "" && forall c :: c in text ==> Alphanumeric(c) || c in "!#$%&'*+-.^_`|~"
  }

  const RESERVED: seq<string> := ["authorization", "proxy-authorization", "host", "content-type", "content-length",
    "transfer-encoding", "connection", "cookie", "set-cookie", "trailer", "te", "upgrade", "accept", "accept-encoding",
    "content-encoding", "user-agent"]

  /** The letters and digits of a name, in lower case. */
  function Identifier(name: string): string {
    if name == "" then ""
    else (if Alphanumeric(name[0]) then [Lower(name[0])] else "") + Identifier(name[1..])
  }

  lemma IdentifierStep(first: string, rest: string)
    requires |first| == 1
    ensures Identifier(first + rest) == Identifier(first) + Identifier(rest)
  {
    hide Alphanumeric, Lower;
    assert (first + rest)[1..] == rest && first[1..] == "";
    assert Identifier("") == "";
  }

  lemma Regrouped(a: string, b: string, c: string)
    ensures a + b + c == a + (b + c)
  {
  }

  lemma {:induction false} IdentifierOfParts(a: string, b: string)
    ensures Identifier(a + b) == Identifier(a) + Identifier(b)
  {
    if a == "" {
      assert a + b == b;
    } else {
      IdentifierOfRest(a[..1], a[1..], b);
      assert a[..1] + a[1..] == a;
    }
  }

  lemma {:induction false} IdentifierOfRest(first: string, rest: string, b: string)
    requires |first| == 1
    ensures Identifier(first + rest + b) == Identifier(first + rest) + Identifier(b)
    decreases |rest|
  {
    hide Identifier;
    Regrouped(first, rest, b);
    IdentifierStep(first, rest + b);
    IdentifierStep(first, rest);
    if rest == "" {
      NoIdentifierOfNothing();
      assert rest + b == b && first + rest == first;
    } else {
      assert rest[..1] + rest[1..] == rest;
      IdentifierOfRest(rest[..1], rest[1..], b);
    }
    Regrouped(Identifier(first), Identifier(rest), Identifier(b));
  }

  lemma NoIdentifierOfNothing()
    ensures Identifier("") == ""
  {
  }

  /** Digits and small letters stay, capitals become small, all else goes. */
  lemma IdentifierOfLetter(c: char)
    ensures 'a' <= c <= 'z' || '0' <= c <= '9' ==> Identifier([c]) == [c]
    ensures 'A' <= c <= 'Z' ==> Identifier([c]) == [(c as int - 'A' as int + 'a' as int) as char]
    ensures !('a' <= c <= 'z' || '0' <= c <= '9' || 'A' <= c <= 'Z') ==> Identifier([c]) == ""
  {
    assert Identifier([c][1..]) == "";
  }

  // ----- rules

  function FieldOr(fields: Fields, name: string, default_: Json): Json {
    if name in fields then fields[name] else default_
  }

  /** A rule object: unknown fields are refused, missing ones have defaults. */
  function RuleFrom(fields: Fields): Option<Rule> {
    var enabled, header, auto :=
      FieldOr(fields, "enabled", Bool(true)), FieldOr(fields, "header", String("Idempotency-Key")), FieldOr(fields, "auto_generate", Bool(false));
    if fields.Keys <= {"enabled", "header", "auto_generate"} && enabled.Bool? && header.String? && auto.Bool? then
      Some(Rule(enabled.b, header.text, auto.b))
    else None
  }

  /** An array stands for the fields in their order. */
  function Positional(items: seq<Json>): Option<Fields> {
    match |items|
    case 0 => Some(map[])
    case 1 => Some(map["enabled" := items[0]])
    case 2 => Some(map["enabled" := items[0], "header" := items[1]])
    case 3 => Some(map["enabled" := items[0], "header" := items[1], "auto_generate" := items[2]])
    case _ => None
  }

  function Decode(value: Json): Option<Rule> {
    match value
    case Bool(enabled) => Some(Rule(enabled, "Idempotency-Key", false))
    case Object(fields) => RuleFrom(fields)
    case Array(items) => if Positional(items).Some? then RuleFrom(Positional(items).value) else None
    case _ => None
  }

  /** The rule of an operation, or a problem: its own entry in the configuration, else the
      configured default, else its extension. */
  function RuleOf(op: Operation, config: Config): Result<Option<Rule>, Problem> {
    if op.id in config.operations then Ok(Some(config.operations[op.id]))
    else if config.defaults.Some? then Ok(config.defaults)
    else if EXTENSION in op.annotations then
      if Decode(op.annotations[EXTENSION]).Some? then Ok(Decode(op.annotations[EXTENSION])) else Err(BadExtension(op.id))
    else Ok(None)
  }

  /** The enabled rule of an operation. */
  function Policy(op: Operation, config: Config): Option<Rule> {
    match RuleOf(op, config)
    case Ok(Some(rule)) => if rule.enabled then Some(rule) else None
    case _ => None
  }

  // ----- what rules are in force

  /** A field has this value, or is left out and this is its default. */
  ghost predicate Gives(fields: Fields, name: string, value: Json, default_: Json) {
    (name in fields && fields[name] == value) || (name !in fields && value == default_)
  }

  /** A switch alone, an object with some of the three fields, or a list of the first ones. */
  ghost predicate Means(json: Json, rule: Rule) {
    match json
    case Bool(enabled) => rule == Rule(enabled, "Idempotency-Key", false)
    case Object(fields) =>
      && (forall name :: name in fields ==> name == "enabled" || name == "header" || name == "auto_generate")
      && Gives(fields, "enabled", Bool(rule.enabled), Bool(true))
      && Gives(fields, "header", String(rule.header), String("Idempotency-Key"))
      && Gives(fields, "auto_generate", Bool(rule.autoGenerate), Bool(false))
    case Array(items) =>
      && |items| <= 3
      && (if |items| > 0 then items[0] == Bool(rule.enabled) else rule.enabled)
      && (if |items| > 1 then items[1] == String(rule.header) else rule.header == "Idempotency-Key")
      && (if |items| > 2 then items[2] == Bool(rule.autoGenerate) else !rule.autoGenerate)
    case _ => false
  }

  lemma DecodeExactly(json: Json, rule: Rule)
    ensures Decode(json) == Some(rule) <==> Means(json, rule)
  {
  }

  /** The operation's own entry, without one the default, without that the extension. */
  ghost predicate InForce(op: Operation, config: Config, rule: Rule) {
    || (op.id in config.operations && config.operations[op.id] == rule)
    || (op.id !in config.operations && config.defaults == Some(rule))
    || (op.id !in config.operations && config.defaults == None && EXTENSION in op.annotations && Means(op.annotations[EXTENSION], rule))
  }

  /** Only an extension that is read can be at fault. */
  lemma RuleExactly(op: Operation, config: Config, rule: Rule)
    ensures RuleOf(op, config) == Ok(Some(rule)) <==> InForce(op, config, rule)
    ensures RuleOf(op, config) == Ok(None) <==> op.id !in config.operations && config.defaults == None && EXTENSION !in op.annotations
    ensures Policy(op, config) == Some(rule) <==> rule.enabled && InForce(op, config, rule)
  {
    hide Decode, Means;
    if EXTENSION in op.annotations {
      DecodeExactly(op.annotations[EXTENSION], rule);
    }
  }

  // ----- header parameters

  predicate IsHeader(parameter: Parameter, header: string) {
    parameter.location == "header" && SameHeader(parameter.name, header)
  }

  predicate Plain(schema: Schema) {
    && schema.kind.StringKind? && !schema.nullable && !schema.nullish && !schema.optional && schema.enumValues == []
    && schema.constValue.None? && schema.format.None? && schema.constraints == map[] && schema.default_.None?
  }

  predicate PlainHeader(parameter: Parameter, header: string) {
    IsHeader(parameter, header) && parameter.schema.Some? && Plain(parameter.schema.value) && !parameter.required
  }

  const PLAIN_STRING := Schema(StringKind, false, false, false, [], None, None, map[], None, map[])

  function NewParameter(header: string): Parameter {
    Parameter(header, "header", false, Some(PLAIN_STRING), Some("Caller-supplied idempotency key for this operation."), map[])
  }

  predicate AllowedHeader(header: string) {
    ValidHeader(header) && LowerAll(header) !in RESERVED && Identifier(header) != ""
  }

  /** What a policy demands of the parameters an operation already has. */
  ghost predicate Admits(parameters: seq<Parameter>, header: string) {
    && (forall i :: 0 <= i < |parameters| && Identifier(parameters[i].name) == Identifier(header) ==> IsHeader(parameters[i], header))
    && (forall i, j :: 0 <= i < j < |parameters| && IsHeader(parameters[i], header) ==> !IsHeader(parameters[j], header))
    && (forall i :: 0 <= i < |parameters| && IsHeader(parameters[i], header) ==> PlainHeader(parameters[i], header))
  }

  ghost predicate Acceptable(op: Operation, config: Config) {
    && RuleOf(op, config).Ok?
    && (Policy(op, config).Some? ==> AllowedHeader(Policy(op, config).value.header) && Admits(op.parameters, Policy(op, config).value.header))
  }

  /** Every configured identifier names exactly one operation. */
  ghost predicate NamesOne(api: Api, id: string) {
    exists i :: 0 <= i < |api| && api[i].id == id && forall j :: 0 <= j < |api| && api[j].id == id ==> j == i
  }

  function Annotation(name: string, auto: bool): Json {
    Object(map["header" := String(name), "parameter_name" := String(name), "auto_generate" := Bool(auto)])
  }

  /** Apart from the resolved policy the annotations are the same. */
  ghost predicate SameAnnotations(before: Fields, after: Fields) {
    forall key :: key != RESOLVED ==> (key in after <==> key in before) && (key in before ==> after[key] == before[key])
  }

  ghost predicate HasHeader(parameters: seq<Parameter>, header: string) {
    exists i :: 0 <= i < |parameters| && IsHeader(parameters[i], header)
  }

  ghost predicate HeaderNamed(parameters: seq<Parameter>, header: string, name: string) {
    exists i :: 0 <= i < |parameters| && IsHeader(parameters[i], header) && parameters[i].name == name
  }

  /** At most one parameter is added, behind the others. */
  ghost function Extended(parameters: seq<Parameter>, header: string): seq<Parameter> {
    if HasHeader(parameters, header) then parameters else parameters + [NewParameter(header)]
  }

  /** The resolved annotation names the header parameter. */
  ghost predicate Resolves(annotations: Fields, parameters: seq<Parameter>, rule: Rule) {
    RESOLVED in annotations && exists name :: HeaderNamed(parameters, rule.header, name) && annotations[RESOLVED] == Annotation(name, rule.autoGenerate)
  }

  ghost predicate Prepared(op: Operation, config: Config, after: Operation) {
    && after.id == op.id && after.others == op.others
    && SameAnnotations(op.annotations, after.annotations)
    && match Policy(op, config)
      case None => RESOLVED !in after.annotations && after.parameters == op.parameters
      case Some(rule) => after.parameters == Extended(op.parameters, rule.header) && Resolves(after.annotations, after.parameters, rule)
  }

  /** The parameter that stands in the way of a header. */
  ghost predicate Obstructs(parameters: seq<Parameter>, header: string, problem: Problem) {
    match problem
    case Collision(_) => exists p :: p in parameters && Identifier(p.name) == Identifier(header) && !IsHeader(p, header)
    case Duplicate(_) => exists i, j :: 0 <= i < j < |parameters| && IsHeader(parameters[i], header) && IsHeader(parameters[j], header)
    case NoSchema(_) => exists p :: p in parameters && IsHeader(p, header) && p.schema.None?
    case NotPlain(_) => exists p :: p in parameters && IsHeader(p, header) && p.schema.Some? && !Plain(p.schema.value)
    case NotOptional(_) => exists p :: p in parameters && IsHeader(p, header) && p.required
    case _ => false
  }

  /** The reason given for a refused operation. */
  ghost predicate Explains(op: Operation, config: Config, problem: Problem) {
    && problem.id == op.id
    && if problem.BadExtension? then RuleOf(op, config).Err?
      else
        && Policy(op, config).Some?
        && var header := Policy(op, config).value.header;
        match problem
        case InvalidHeader(_) => !ValidHeader(header)
        case ReservedHeader(_) => LowerAll(header) in RESERVED
        case NoIdentifier(_) => Identifier(header) == ""
        case _ => Obstructs(op.parameters, header, problem)
  }

  lemma ExplainedIsRefused(op: Operation, config: Config, problem: Problem)
    requires Explains(op, config, problem)
    ensures !Acceptable(op, config)
  {
  }

  // ----- preparation

  /** The positions of the header parameters. */
  method Matching(parameters: seq<Parameter>, header: string) returns (matching: seq<nat>)
    ensures forall k :: 0 <= k < |matching| ==> matching[k] < |parameters| && IsHeader(parameters[matching[k]], header)
    ensures forall k, l :: 0 <= k < l < |matching| ==> matching[k] < matching[l]
    ensures forall i :: 0 <= i < |parameters| && IsHeader(parameters[i], header) ==> i in matching
  {
    hide IsHeader;
    matching := [];
    for i := 0 to |parameters|
      invariant forall k :: 0 <= k < |matching| ==> matching[k] < i && IsHeader(parameters[matching[k]], header)
      invariant forall k, l :: 0 <= k < l < |matching| ==> matching[k] < matching[l]
      invariant forall j :: 0 <= j < i && IsHeader(parameters[j], header) ==> j in matching
    {
      if IsHeader(parameters[i], header) {
        matching := matching + [i];
      }
    }
  }

  /** The parameters with a header parameter among them, and its name. */
  method WithHeader(id: string, parameters: seq<Parameter>, header: string) returns (result: Result<(string, seq<Parameter>), Problem>)
    ensures match result
      case Ok((name, after)) =>
        && Admits(parameters, header)
        && after == Extended(parameters, header)
        && HeaderNamed(after, header, name)
      case Err(problem) => problem.id == id && Obstructs(parameters, header, problem)
  {
    hide IsHeader, Identifier, Plain;
    var key := Identifier(header);
    for i := 0 to |parameters|
      invariant forall j :: 0 <= j < i && Identifier(parameters[j].name) == key ==> IsHeader(parameters[j], header)
    {
      if Identifier(parameters[i].name) == key && !IsHeader(parameters[i], header) {
        assert parameters[i] in parameters;
        return Err(Collision(id));
      }
    }
    var matching := Matching(parameters, header);
    if |matching| > 1 {
      assert matching[0] < matching[1];
      return Err(Duplicate(id));
    }
    if |matching| == 1 {
      var parameter := parameters[matching[0]];
      assert parameter in parameters;
      if parameter.schema.None? {
        return Err(NoSchema(id));
      }
      if !Plain(parameter.schema.value) {
        return Err(NotPlain(id));
      }
      if parameter.required {
        return Err(NotOptional(id));
      }
      return Ok((parameter.name, parameters));
    }
    NewIsHeader(header);
    var after := parameters + [NewParameter(header)];
    assert after[|parameters|] == NewParameter(header);
    return Ok((header, after));
  }

  method PrepareOperation(op: Operation, config: Config) returns (result: Result<Operation, Problem>)
    ensures match result
      case Ok(after) => Acceptable(op, config) && Prepared(op, config, after)
      case Err(problem) => Explains(op, config, problem)
  {
    hide IsHeader, Identifier, ValidHeader, LowerAll, RuleOf, Admits, Obstructs, Extended, Resolves, SameAnnotations, HeaderNamed, Annotation;
    var annotations := op.annotations - {RESOLVED};
    WithoutResolved(op.annotations, Null);
    var resolved := RuleOf(op, config);
    if resolved.Err? {
      RuleProblem(op, config);
      return Err(resolved.error);
    }
    if resolved.value.None? || !resolved.value.value.enabled {
      return Ok(op.(annotations := annotations));
    }
    var rule := resolved.value.value;
    if !ValidHeader(rule.header) {
      return Err(InvalidHeader(op.id));
    }
    if LowerAll(rule.header) in RESERVED {
      return Err(ReservedHeader(op.id));
    }
    if Identifier(rule.header) == "" {
      return Err(NoIdentifier(op.id));
    }
    var header := WithHeader(op.id, op.parameters, rule.header);
    if header.Err? {
      IsObstruction(op.parameters, rule.header, header.error);
      return Err(header.error);
    }
    var (name, parameters) := header.value;
    WithoutResolved(op.annotations, Annotation(name, rule.autoGenerate));
    annotations := annotations[RESOLVED := Annotation(name, rule.autoGenerate)];
    NowResolved(annotations, parameters, rule, name);
    return Ok(op.(parameters := parameters, annotations := annotations));
  }

  lemma WithoutResolved(annotations: Fields, value: Json)
    ensures SameAnnotations(annotations, annotations - {RESOLVED})
    ensures SameAnnotations(annotations, (annotations - {RESOLVED})[RESOLVED := value])
  {
  }

  lemma NowResolved(annotations: Fields, parameters: seq<Parameter>, rule: Rule, name: string)
    requires HeaderNamed(parameters, rule.header, name) && RESOLVED in annotations && annotations[RESOLVED] == Annotation(name, rule.autoGenerate)
    ensures Resolves(annotations, parameters, rule)
  {
  }

  lemma IsObstruction(parameters: seq<Parameter>, header: string, problem: Problem)
    requires Obstructs(parameters, header, problem)
    ensures !problem.BadExtension? && !problem.InvalidHeader? && !problem.ReservedHeader? && !problem.NoIdentifier?
  {
  }

  lemma RuleProblem(op: Operation, config: Config)
    requires RuleOf(op, config).Err?
    ensures RuleOf(op, config).error == BadExtension(op.id)
  {
  }

  lemma NewIsHeader(header: string)
    ensures IsHeader(NewParameter(header), header) && PlainHeader(NewParameter(header), header)
  {
  }

  // ----- the whole API

  ghost predicate Ready(api: Api, config: Config) {
    && (forall id :: id in config.operations ==> NamesOne(api, id))
    && forall i :: 0 <= i < |api| ==> Acceptable(api[i], config)
  }

  ghost predicate AllPrepared(api: Api, config: Config, after: Api) {
    |after| == |api| && forall i :: 0 <= i < |api| ==> Prepared(api[i], config, after[i])
  }

  method CountOf(api: Api, id: string) returns (count: nat)
    ensures count == 1 <==> NamesOne(api, id)
  {
    count := 0;
    ghost var first := 0;
    for i := 0 to |api|
      invariant count == 0 ==> forall j :: 0 <= j < i ==> api[j].id != id
      invariant count == 1 ==> first < i && api[first].id == id && forall j :: 0 <= j < i && api[j].id == id ==> j == first
      invariant count > 1 ==> exists j, k :: 0 <= j < k < i && api[j].id == id && api[k].id == id
    {
      if api[i].id == id {
        if count == 0 {
          first := i;
        } else if count == 1 {
          assert api[first].id == id && api[i].id == id && first < i;
        }
        count := count + 1;
      }
    }
  }

  /** Preparation succeeds exactly when every configured operation exists once and every
      operation is acceptable. */
  method PrepareApi(api: Api, config: Config) returns (result: Result<Api, Problem>)
    ensures result.Ok? <==> Ready(api, config)
    ensures result.Ok? ==> AllPrepared(api, config, result.value)
    ensures result.Err? && result.error.NotOneOperation? ==> result.error.id in config.operations && !NamesOne(api, result.error.id)
    ensures result.Err? && !result.error.NotOneOperation? ==> exists op :: op in api && Explains(op, config, result.error)
  {
    hide Acceptable, Prepared, Explains, NamesOne;
    var ids := config.operations.Keys;
    while ids != {}
      invariant ids <= config.operations.Keys
      invariant forall id :: id in config.operations && id !in ids ==> NamesOne(api, id)
      decreases |ids|
    {
      var id :| id in ids;
      var count := CountOf(api, id);
      if count != 1 {
        return Err(NotOneOperation(id));
      }
      ids := ids - {id};
    }
    var prepared := api;
    for i := 0 to |api|
      invariant |prepared| == |api|
      invariant forall j :: 0 <= j < i ==> Acceptable(api[j], config) && Prepared(api[j], config, prepared[j])
      invariant forall j :: i <= j < |api| ==> prepared[j] == api[j]
    {
      var after := PrepareOperation(prepared[i], config);
      if after.Err? {
        ExplainedIsRefused(api[i], config, after.error);
        NotAboutIds(api[i], config, after.error);
        assert api[i] in api;
        return Err(after.error);
      }
      prepared := prepared[i := after.value];
    }
    return Ok(prepared);
  }

  lemma NotAboutIds(op: Operation, config: Config, problem: Problem)
    requires Explains(op, config, problem)
    ensures !problem.NotOneOperation?
  {
  }

  // ----- what preparation guarantees

  lemma {:induction false} SameHeaderSameIdentifier(a: string, b: string)
    requires SameHeader(a, b)
    ensures Identifier(a) == Identifier(b)
  {
    assert |LowerAll(a)| == |a| && |LowerAll(b)| == |b|;
    if a != "" {
      assert LowerAll(a)[0] == Lower(a[0]) && LowerAll(b)[0] == Lower(b[0]);
      assert LowerAll(a[1..]) == LowerAll(a)[1..] && LowerAll(b[1..]) == LowerAll(b)[1..];
      SameHeaderSameIdentifier(a[1..], b[1..]);
    }
  }

  lemma ExtendedHasOne(parameters: seq<Parameter>, header: string)
    requires Admits(parameters, header)
    ensures Admits(Extended(parameters, header), header) && HasHeader(Extended(parameters, header), header)
    ensures Extended(Extended(parameters, header), header) == Extended(parameters, header)
  {
    hide IsHeader, Identifier, PlainHeader;
    NewIsHeader(header);
    if !HasHeader(parameters, header) {
      assert Extended(parameters, header)[|parameters|] == NewParameter(header);
    }
  }

  /** Among admissible parameters one header has one name. */
  lemma OneName(parameters: seq<Parameter>, header: string, a: string, b: string)
    requires Admits(parameters, header) && HeaderNamed(parameters, header, a) && HeaderNamed(parameters, header, b)
    ensures a == b
  {
    hide IsHeader, Identifier, PlainHeader;
  }

  lemma HeaderSharesIdentifier(parameters: seq<Parameter>, header: string)
    requires Admits(parameters, header)
    ensures forall i :: 0 <= i < |parameters| && IsHeader(parameters[i], header) ==> PlainHeader(parameters[i], header)
    ensures forall i, j ::
      (0 <= i < |parameters| && 0 <= j < |parameters| && IsHeader(parameters[i], header) && Identifier(parameters[j].name) == Identifier(header)) ==> i == j
  {
    hide IsHeader, Identifier, PlainHeader;
  }

  /** The resolved policy that generators read: header, parameter name, whether to generate keys. */
  function Resolved(op: Operation): Option<(string, string, bool)> {
    if RESOLVED in op.annotations && op.annotations[RESOLVED].Object? then
      var fields := op.annotations[RESOLVED].fields;
      if fields.Keys == {"header", "parameter_name", "auto_generate"} && fields["header"].String? && fields["parameter_name"].String? && fields["auto_generate"].Bool? then
        Some((fields["header"].text, fields["parameter_name"].text, fields["auto_generate"].b))
      else None
    else None
  }

  lemma AnnotationReads(op: Operation, name: string, auto: bool)
    requires RESOLVED in op.annotations && op.annotations[RESOLVED] == Annotation(name, auto)
    ensures Resolved(op) == Some((name, name, auto))
  {
  }

  /** A header that may be left out and holds any text. */
  ghost predicate OptionalText(parameter: Parameter, header: string) {
    && parameter.location == "header" && SameHeader(parameter.name, header) && !parameter.required
    && parameter.schema.Some?
    && var schema := parameter.schema.value;
      schema == Schema(StringKind, false, false, false, [], None, None, map[], None, schema.others)
  }

  lemma PlainIsOptionalText(parameter: Parameter, header: string)
    ensures PlainHeader(parameter, header) <==> OptionalText(parameter, header)
  {
  }

  /** Parameters are kept; a new one has the header's own name. */
  lemma OnlyAddsHeader(parameters: seq<Parameter>, header: string)
    ensures parameters <= Extended(parameters, header) && |Extended(parameters, header)| <= |parameters| + 1
    ensures !HasHeader(parameters, header) ==> HeaderNamed(Extended(parameters, header), header, header)
  {
    if !HasHeader(parameters, header) {
      assert Extended(parameters, header)[|parameters|] == NewParameter(header);
    }
  }

  /** An operation with a policy has exactly one parameter with the header's identifier, an
      optional plain-string header, and generators read that parameter's name. */
  lemma OneHeader(op: Operation, config: Config, after: Operation)
    requires Acceptable(op, config) && Prepared(op, config, after) && Policy(op, config).Some?
    ensures op.parameters <= after.parameters && |after.parameters| <= |op.parameters| + 1
    ensures !HasHeader(op.parameters, Policy(op, config).value.header) ==> HeaderNamed(after.parameters, Policy(op, config).value.header, Policy(op, config).value.header)
    ensures var rule := Policy(op, config).value;
      exists i :: 0 <= i < |after.parameters| && OptionalText(after.parameters[i], rule.header)
        && (forall j :: 0 <= j < |after.parameters| ==> (Identifier(after.parameters[j].name) == Identifier(rule.header) <==> j == i))
        && Resolved(after) == Some((after.parameters[i].name, after.parameters[i].name, rule.autoGenerate))
  {
    hide Policy, Identifier, RuleOf, AllowedHeader, IsHeader, PlainHeader, Admits, Extended, Annotation, Resolved;
    var rule := Policy(op, config).value;
    ExtendedHasOne(op.parameters, rule.header);
    OnlyAddsHeader(op.parameters, rule.header);
    HeaderSharesIdentifier(after.parameters, rule.header);
    var name :| HeaderNamed(after.parameters, rule.header, name) && after.annotations[RESOLVED] == Annotation(name, rule.autoGenerate);
    var i :| 0 <= i < |after.parameters| && IsHeader(after.parameters[i], rule.header) && after.parameters[i].name == name;
    PlainIsOptionalText(after.parameters[i], rule.header);
    HeaderIdentifier(after.parameters[i], rule.header);
    AnnotationReads(after, name, rule.autoGenerate);
  }

  lemma HeaderIdentifier(parameter: Parameter, header: string)
    requires IsHeader(parameter, header)
    ensures Identifier(parameter.name) == Identifier(header)
  {
    SameHeaderSameIdentifier(parameter.name, header);
  }

  /** Another preparation with the same configuration reads the same rule. */
  lemma SamePolicy(op: Operation, config: Config, after: Operation)
    requires Prepared(op, config, after)
    ensures RuleOf(after, config) == RuleOf(op, config) && Policy(after, config) == Policy(op, config)
  {
    hide Decode, Extended, Resolves;
    assert EXTENSION != RESOLVED by { assert |EXTENSION| != |RESOLVED|; }
  }

  lemma SameMap(after: Fields, again: Fields)
    requires SameAnnotations(after, again)
    requires RESOLVED in after <==> RESOLVED in again
    requires RESOLVED in after ==> after[RESOLVED] == again[RESOLVED]
    ensures again == after
  {
    assert forall key :: key in after <==> key in again;
  }

  /** Preparing a prepared operation changes nothing. */
  lemma PreparedIsFixed(op: Operation, config: Config, after: Operation, again: Operation)
    requires Acceptable(op, config) && Prepared(op, config, after)
    ensures Acceptable(after, config)
    ensures Prepared(after, config, again) <==> again == after
  {
    hide Policy, RuleOf, AllowedHeader, Admits, Extended, Annotation, SameAnnotations, HeaderNamed;
    SamePolicy(op, config, after);
    StaysSame(after.annotations);
    if Policy(op, config).Some? {
      ExtendedHasOne(op.parameters, Policy(op, config).value.header);
    }
    if Prepared(after, config, again) {
      if Policy(op, config).Some? {
        var rule := Policy(op, config).value;
        var a :| HeaderNamed(after.parameters, rule.header, a) && after.annotations[RESOLVED] == Annotation(a, rule.autoGenerate);
        var b :| HeaderNamed(again.parameters, rule.header, b) && again.annotations[RESOLVED] == Annotation(b, rule.autoGenerate);
        OneName(after.parameters, rule.header, a, b);
      }
      SameMap(after.annotations, again.annotations);
    }
  }

  lemma StaysSame(annotations: Fields)
    ensures SameAnnotations(annotations, annotations)
  {
  }

  /** Preparing a prepared API succeeds and changes nothing. */
  lemma AllPreparedIsFixed(api: Api, config: Config, after: Api, again: Api)
    requires Ready(api, config) && AllPrepared(api, config, after)
    ensures Ready(after, config)
    ensures AllPrepared(after, config, again) <==> again == after
  {
    hide Acceptable, Prepared, NamesOne;
    forall i | 0 <= i < |api|
      ensures after[i].id == api[i].id && Acceptable(after[i], config)
      ensures i < |again| ==> (Prepared(after[i], config, again[i]) <==> again[i] == after[i])
    {
      SameId(api[i], config, after[i]);
      PreparedIsFixed(api[i], config, after[i], if i < |again| then again[i] else after[i]);
    }
    forall id | id in config.operations ensures NamesOne(after, id) {
      SameIds(api, after, id);
    }
  }

  lemma SameId(op: Operation, config: Config, after: Operation)
    requires Prepared(op, config, after)
    ensures after.id == op.id
  {
  }

  lemma SameIds(api: Api, after: Api, id: string)
    requires |after| == |api| && forall i :: 0 <= i < |api| ==> after[i].id == api[i].id
    ensures NamesOne(after, id) == NamesOne(api, id)
  {
    if NamesOne(api, id) {
      var i :| 0 <= i < |api| && api[i].id == id && forall j :: 0 <= j < |api| && api[j].id == id ==> j == i;
      assert after[i].id == id;
    }
    if NamesOne(after, id) {
      var i :| 0 <= i < |after| && after[i].id == id && forall j :: 0 <= j < |after| && after[j].id == id ==> j == i;
      assert api[i].id == id;
    }
  }
}
