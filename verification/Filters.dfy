/** Selecting operations by pattern, and overlaying the options of matching rules. */
module Filters {
  import opened Wrappers

  // ----- what a pattern means

  /** '*' stands for any sequence and '?' for any one character. */
  predicate Glob(pattern: string, value: string)
    decreases |pattern| + |value|
  {
    if pattern == [] then value == []
    else if pattern[0] == '*' then Glob(pattern[1..], value) || (value != [] && Glob(pattern, value[1..]))
    else value != [] && (pattern[0] == '?' || pattern[0] == value[0]) && Glob(pattern[1..], value[1..])
  }

  function Concat(pieces: seq<string>): string {
    if pieces == [] then "" else pieces[0] + Concat(pieces[1..])
  }

  ghost predicate Piece(c: char, piece: string) {
    c == '*' || (|piece| == 1 && (c == '?' || piece[0] == c))
  }

  /** The value in pieces, one for each character of the pattern. */
  ghost predicate Fits(pattern: string, pieces: seq<string>, value: string) {
    && |pieces| == |pattern|
    && Concat(pieces) == value
    && forall i :: 0 <= i < |pattern| ==> Piece(pattern[i], pieces[i])
  }

  lemma {:induction false} PiecesGlob(pattern: string, pieces: seq<string>, value: string)
    requires Fits(pattern, pieces, value)
    ensures Glob(pattern, value)
    decreases |pattern|, |value|
  {
    if pattern != [] {
      var piece, rest := pieces[0], Concat(pieces[1..]);
      assert Piece(pattern[0], pieces[0]);
      if pattern[0] == '*' && piece != "" {
        var shorter := pieces[0 := piece[1..]];
        assert Concat(shorter) == value[1..] by {
          assert shorter[1..] == pieces[1..];
        }
        assert value != [] && Fits(pattern, shorter, value[1..]);
        PiecesGlob(pattern, shorter, value[1..]);
      } else {
        assert Fits(pattern[1..], pieces[1..], rest);
        assert piece != "" ==> value[1..] == rest;
        assert piece == "" ==> value == rest;
        PiecesGlob(pattern[1..], pieces[1..], rest);
      }
    }
  }

  lemma {:induction false} GlobPieces(pattern: string, value: string) returns (pieces: seq<string>)
    requires Glob(pattern, value)
    ensures Fits(pattern, pieces, value)
    decreases |pattern| + |value|
  {
    if pattern == [] {
      pieces := [];
    } else if pattern[0] == '*' && !Glob(pattern[1..], value) {
      pieces := GlobPieces(pattern, value[1..]);
      assert Piece(pattern[0], pieces[0]);
      var longer := pieces[0 := [value[0]] + pieces[0]];
      assert longer[1..] == pieces[1..];
      assert Concat(longer) == [value[0]] + Concat(pieces);
      pieces := longer;
    } else {
      var piece := if pattern[0] == '*' then "" else value[..1];
      var rest := GlobPieces(pattern[1..], value[|piece|..]);
      pieces := [piece] + rest;
      assert pieces[1..] == rest;
      forall i | 0 <= i < |pattern| ensures Piece(pattern[i], pieces[i]) {
        assert i > 0 ==> pattern[i] == pattern[1..][i - 1] && Piece(pattern[1..][i - 1], rest[i - 1]);
      }
    }
  }

  /** A value matches if and only if it falls into such pieces. */
  lemma GlobExactly(pattern: string, value: string)
    ensures Glob(pattern, value) <==> exists pieces :: Fits(pattern, pieces, value)
  {
    if Glob(pattern, value) {
      var pieces := GlobPieces(pattern, value);
    }
    if pieces :| Fits(pattern, pieces, value) {
      PiecesGlob(pattern, pieces, value);
    }
  }

  // ----- what the matcher does

  predicate AllStars(pattern: string) {
    forall c :: c in pattern ==> c == '*'
  }

  /** The matcher from any of its states: positions in pattern and value, the last star it
      passed, and where in the value it would retry from that star. */
  function Scan(pattern: string, value: string, p: nat, v: nat, star: Option<nat>, retry: nat): bool
    requires p <= |pattern| && retry <= v <= |value|
    requires star.Some? ==> star.value < p
    decreases |value| - retry, |value| - v + |pattern| - p
  {
    if v == |value| then AllStars(pattern[p..])
    else if p < |pattern| && (pattern[p] == '?' || pattern[p] == value[v]) then
      Scan(pattern, value, p + 1, v + 1, star, retry)
    else if p < |pattern| && pattern[p] == '*' then Scan(pattern, value, p + 1, v, Some(p), v)
    else if star.Some? then Scan(pattern, value, star.value + 1, retry + 1, star, retry + 1)
    else false
  }

  function Wildcard(pattern: string, value: string): bool {
    Scan(pattern, value, 0, 0, None, 0)
  }

  method WildcardMatches(pattern: string, value: string) returns (matches: bool)
    ensures matches == Wildcard(pattern, value)
    ensures matches ==> Glob(pattern, value)
    ensures '*' !in value ==> matches == Glob(pattern, value)
  {
    var p: nat, v: nat := 0, 0;
    var star: Option<nat>, retry: nat := None, 0;
    Sound(pattern, value, 0, 0, None, 0);
    if '*' !in value {
      Complete(pattern, value);
    }
    while v < |value|
      invariant p <= |pattern| && retry <= v <= |value|
      invariant star.Some? ==> star.value < p
      invariant Scan(pattern, value, p, v, star, retry) == Wildcard(pattern, value)
      decreases |value| - retry, |value| - v + |pattern| - p
    {
      if p < |pattern| && (pattern[p] == '?' || pattern[p] == value[v]) {
        p := p + 1;
        v := v + 1;
      } else if p < |pattern| && pattern[p] == '*' {
        star := Some(p);
        p := p + 1;
        retry := v;
      } else if star.Some? {
        p := star.value + 1;
        retry := retry + 1;
        v := retry;
      } else {
        return false;
      }
    }
    while p < |pattern| && pattern[p] == '*'
      invariant p <= |pattern|
      invariant AllStars(pattern[p..]) == Wildcard(pattern, value)
    {
      ghost var before := pattern[p..];
      p := p + 1;
      assert before == ['*'] + pattern[p..];
      assert forall c :: c in before <==> c == '*' || c in pattern[p..];
    }
    if p < |pattern| {
      assert pattern[p] in pattern[p..];
    }
    matches := p == |pattern|;
  }

  // ----- a match is a match

  lemma {:induction false} StarsMatchNothing(pattern: string)
    ensures Glob(pattern, []) <==> AllStars(pattern)
  {
    if pattern != [] {
      StarsMatchNothing(pattern[1..]);
      assert pattern[0] in pattern;
      assert forall c :: c in pattern <==> c == pattern[0] || c in pattern[1..];
    }
  }

  lemma {:induction false} StarAbsorbs(pattern: string, value: string, lo: nat, hi: nat)
    requires pattern != [] && pattern[0] == '*' && lo <= hi <= |value|
    ensures Glob(pattern, value[hi..]) ==> Glob(pattern, value[lo..])
    decreases hi - lo
  {
    if lo < hi {
      StarAbsorbs(pattern, value, lo + 1, hi);
      assert value[lo..][1..] == value[lo + 1..];
    }
  }

  /** Wherever the matcher is: if it goes on to accept, the rest of the pattern matches the
      rest of the value, now or retried from the last star. */
  lemma {:induction false} Sound(pattern: string, value: string, p: nat, v: nat, star: Option<nat>, retry: nat)
    requires p <= |pattern| && retry <= v <= |value|
    requires star.Some? ==> star.value < p && pattern[star.value] == '*'
    ensures Scan(pattern, value, p, v, star, retry) ==>
      || Glob(pattern[p..], value[v..])
      || (star.Some? && retry < |value| && Glob(pattern[star.value..], value[retry + 1..]))
    decreases |value| - retry, |value| - v + |pattern| - p
  {
    if v == |value| {
      StarsMatchNothing(pattern[p..]);
    } else {
      assert p < |pattern| ==> pattern[p..][1..] == pattern[p + 1..];
      assert value[v..][1..] == value[v + 1..];
      if p < |pattern| && (pattern[p] == '?' || pattern[p] == value[v]) {
        Sound(pattern, value, p + 1, v + 1, star, retry);
        if pattern[p] == '*' && Glob(pattern[p + 1..], value[v + 1..]) {
          assert Glob(pattern[p..], value[v + 1..]);
        }
      } else if p < |pattern| && pattern[p] == '*' {
        Sound(pattern, value, p + 1, v, Some(p), v);
      } else if star.Some? {
        Sound(pattern, value, star.value + 1, retry + 1, star, retry + 1);
        assert pattern[star.value..][1..] == pattern[star.value + 1..];
        assert value[retry + 1..] != [] ==> value[retry + 1..][1..] == value[retry + 2..];
      }
    }
  }

  // ----- nothing is missed in values without stars

  /** Between its last star and where it is, the matcher has matched character by character. */
  predicate Matched(pattern: string, value: string, p: nat, v: nat, star: nat, retry: nat) {
    && star < p <= |pattern| && retry <= v <= |value|
    && pattern[star] == '*'
    && p - (star + 1) == v - retry
    && forall j :: star < j < p ==>
      pattern[j] != '*' && (pattern[j] == '?' || pattern[j] == value[retry + (j - star - 1)])
  }

  /** A run of plain characters uses up as many characters of the value. */
  lemma {:induction false} PlainRun(pattern: string, value: string, lo: nat, hi: nat, at: nat)
    requires lo <= hi <= |pattern| && at <= |value|
    requires forall k :: lo <= k < hi ==> pattern[k] != '*'
    ensures Glob(pattern[lo..], value[at..]) ==> at + (hi - lo) <= |value| && Glob(pattern[hi..], value[at + (hi - lo)..])
    decreases hi - lo
  {
    if lo < hi && at < |value| {
      assert pattern[lo..][1..] == pattern[lo + 1..] && value[at..][1..] == value[at + 1..];
      PlainRun(pattern, value, lo + 1, hi, at + 1);
    }
  }

  lemma {:induction false} MatchedRun(pattern: string, value: string, p: nat, v: nat, star: nat, retry: nat)
    requires Matched(pattern, value, p, v, star, retry)
    ensures Glob(pattern[p..], value[v..]) ==> Glob(pattern[star + 1..], value[retry..])
    decreases v - retry
  {
    if retry < v {
      assert Matched(pattern, value, p - 1, v - 1, star, retry);
      assert pattern[p - 1..][1..] == pattern[p..] && value[v - 1..][1..] == value[v..];
      MatchedRun(pattern, value, p - 1, v - 1, star, retry);
    }
  }

  /** Some way of stretching the star matches only if one from `from` on does. */
  lemma {:induction false} StarStretches(pattern: string, value: string, lo: nat) returns (at: nat)
    requires pattern != [] && pattern[0] == '*' && lo <= |value| && Glob(pattern, value[lo..])
    ensures lo <= at <= |value| && Glob(pattern[1..], value[at..])
    decreases |value| - lo
  {
    if Glob(pattern[1..], value[lo..]) {
      at := lo;
    } else {
      assert value[lo..][1..] == value[lo + 1..];
      at := StarStretches(pattern, value, lo + 1);
    }
  }

  /** Passing a new star, earlier ones can be forgotten. */
  lemma ForgetStar(pattern: string, value: string, p: nat, v: nat, star: nat, retry: nat)
    requires Matched(pattern, value, p, v, star, retry) && p < |pattern| && pattern[p] == '*'
    ensures Glob(pattern[star..], value[retry..]) <==> Glob(pattern[p..], value[v..])
  {
    assert pattern[star..][1..] == pattern[star + 1..];
    MatchedRun(pattern, value, p, v, star, retry);
    if Glob(pattern[star..], value[retry..]) {
      var at := StarStretches(pattern[star..], value, retry);
      PlainRun(pattern, value, star + 1, p, at);
      StarAbsorbs(pattern[p..], value, v, at + (p - star - 1));
    }
  }

  /** After a mismatch the star must be stretched by one more character. */
  lemma RetryStar(pattern: string, value: string, p: nat, v: nat, star: nat, retry: nat)
    requires Matched(pattern, value, p, v, star, retry) && v < |value|
    requires p < |pattern| ==> pattern[p] != '*' && pattern[p] != '?' && pattern[p] != value[v]
    ensures Glob(pattern[star..], value[retry..]) <==> Glob(pattern[star..], value[retry + 1..])
  {
    assert pattern[star..][1..] == pattern[star + 1..] && value[retry..][1..] == value[retry + 1..];
    PlainRun(pattern, value, star + 1, p, retry);
  }

  lemma {:induction false} ScanIsGlob(pattern: string, value: string, p: nat, v: nat, star: Option<nat>, retry: nat)
    requires '*' !in value
    requires p <= |pattern| && retry <= v <= |value|
    requires star.Some? ==> Matched(pattern, value, p, v, star.value, retry)
    ensures Scan(pattern, value, p, v, star, retry) ==
      if star.Some? then Glob(pattern[star.value..], value[retry..]) else Glob(pattern[p..], value[v..])
    decreases |value| - retry, |value| - v + |pattern| - p
  {
    if v == |value| {
      StarsMatchNothing(pattern[p..]);
      if star.Some? {
        AtTheEnd(pattern, value, p, star.value, retry);
      }
    } else {
      assert p < |pattern| ==> pattern[p..][1..] == pattern[p + 1..];
      assert value[v..][1..] == value[v + 1..];
      if p < |pattern| && (pattern[p] == '?' || pattern[p] == value[v]) {
        ScanIsGlob(pattern, value, p + 1, v + 1, star, retry);
      } else if p < |pattern| && pattern[p] == '*' {
        ScanIsGlob(pattern, value, p + 1, v, Some(p), v);
        if star.Some? {
          ForgetStar(pattern, value, p, v, star.value, retry);
        }
      } else if star.Some? {
        RetryStar(pattern, value, p, v, star.value, retry);
        ScanIsGlob(pattern, value, star.value + 1, retry + 1, star, retry + 1);
      }
    }
  }

  /** At the end of the value the star cannot be stretched any further. */
  lemma AtTheEnd(pattern: string, value: string, p: nat, star: nat, retry: nat)
    requires Matched(pattern, value, p, |value|, star, retry)
    ensures Glob(pattern[star..], value[retry..]) <==> Glob(pattern[p..], value[|value|..])
  {
    assert pattern[star..][1..] == pattern[star + 1..];
    MatchedRun(pattern, value, p, |value|, star, retry);
    if Glob(pattern[star..], value[retry..]) {
      var at := StarStretches(pattern[star..], value, retry);
      PlainRun(pattern, value, star + 1, p, at);
    }
  }

  lemma Complete(pattern: string, value: string)
    requires '*' !in value
    ensures Wildcard(pattern, value) == Glob(pattern, value)
  {
    ScanIsGlob(pattern, value, 0, 0, None, 0);
    assert pattern[0..] == pattern && value[0..] == value;
  }

  // ----- a star in the value is taken literally

  /** A pattern that the value matches and the matcher rejects. */
  function Missed(value: string, star: nat): string
    requires star < |value|
  {
    value[..star] + if star + 1 < |value| then "*" else "*?"
  }

  lemma {:induction false} ScanLiterally(pattern: string, value: string, n: nat)
    requires n <= |pattern| && n <= |value| && pattern[..n] == value[..n]
    ensures Wildcard(pattern, value) == Scan(pattern, value, n, n, None, 0)
  {
    if n > 0 {
      assert pattern[..n - 1] == value[..n - 1];
      assert pattern[n - 1] == pattern[..n][n - 1] == value[n - 1];
      ScanLiterally(pattern, value, n - 1);
    }
  }

  lemma {:induction false} GlobLiterally(prefix: string, pattern: string, value: string)
    requires '*' !in prefix && Glob(pattern, value)
    ensures Glob(prefix + pattern, prefix + value)
  {
    if prefix == [] {
      assert prefix + pattern == pattern && prefix + value == value;
    } else {
      GlobLiterally(prefix[1..], pattern, value);
      assert (prefix + pattern)[1..] == prefix[1..] + pattern;
      assert (prefix + value)[1..] == prefix[1..] + value;
    }
  }

  lemma StarMatchesAll(value: string)
    ensures Glob("*", value)
  {
    if value != [] {
      StarMatchesAll(value[1..]);
    }
  }

  /** The pattern matches, its last part standing for the rest of the value. */
  lemma MissedMatches(value: string, star: nat)
    requires star < |value| && value[star] == '*' && '*' !in value[..star]
    ensures Glob(Missed(value, star), value)
  {
    var rest := value[star..];
    assert value == value[..star] + rest;
    if star + 1 < |value| {
      StarMatchesAll(rest);
      GlobLiterally(value[..star], "*", rest);
    } else {
      assert rest == "*" && "*?"[1..] == "?" && rest[1..] == "" && "?"[1..] == "";
      assert Glob("?", rest);
      GlobLiterally(value[..star], "*?", rest);
    }
  }

  /** The matcher takes the star for itself, and then too little or too much is left. */
  lemma MissedIsRejected(value: string, star: nat)
    requires star < |value| && value[star] == '*' && '*' !in value[..star]
    ensures !Wildcard(Missed(value, star), value)
  {
    hide Glob;
    var pattern := Missed(value, star);
    assert pattern[..star] == value[..star] && pattern[star] == '*';
    assert pattern[..star + 1] == value[..star + 1];
    ScanLiterally(pattern, value, star + 1);
    if star + 1 == |value| {
      assert pattern[star + 1..] == "?" && '?' in pattern[star + 1..];
    }
  }

  lemma FirstStarMisleads(value: string, star: nat)
    requires star < |value| && value[star] == '*' && '*' !in value[..star]
    ensures Glob(Missed(value, star), value) && !Wildcard(Missed(value, star), value)
  {
    hide Glob, Wildcard, Missed;
    MissedMatches(value, star);
    MissedIsRejected(value, star);
  }

  /** The matcher is right about a value for every pattern exactly when the value has no star:
      otherwise a star in the pattern facing it is spent on that one character. */
  lemma MatcherIsRightExactly(value: string)
    ensures (forall pattern :: Wildcard(pattern, value) == Glob(pattern, value)) <==> '*' !in value
  {
    if '*' !in value {
      forall pattern ensures Wildcard(pattern, value) == Glob(pattern, value) {
        Complete(pattern, value);
      }
    } else {
      var star := FirstStar(value);
      FirstStarMisleads(value, star);
    }
  }

  lemma FirstStar(value: string) returns (star: nat)
    requires '*' in value
    ensures star < |value| && value[star] == '*' && '*' !in value[..star]
  {
    star := 0;
    while value[star] != '*'
      invariant star < |value| && '*' !in value[..star]
      invariant '*' in value[star..]
      decreases |value| - star
    {
      assert value[star..] == [value[star]] + value[star + 1..];
      star := star + 1;
    }
  }

  // ----- rules

  datatype Operation = Operation(id: string, path: string, verb: string, tags: seq<string>)

  datatype Filter = ById(pattern: string) | ByPath(pattern: string) | ByVerb(verb: string) | ByTag(pattern: string)

  predicate Selects(filter: Filter, operation: Operation) {
    match filter
    case ById(pattern) => Wildcard(pattern, operation.id)
    case ByPath(pattern) => Wildcard(pattern, operation.path)
    case ByVerb(verb) => verb == operation.verb
    case ByTag(pattern) => exists tag :: tag in operation.tags && Wildcard(pattern, tag)
  }

  /** Options are for operations and for schemas; each rule is about one or the other. */
  datatype Subject = OfOperation(operation: Operation) | OfSchema(name: string)

  datatype OverrideFilter = OnOperation(filter: Filter) | OnSchema(pattern: string)

  datatype Rule = Rule(filter: OverrideFilter, values: map<string, string>)

  predicate Applies(filter: OverrideFilter, subject: Subject) {
    match (filter, subject)
    case (OnOperation(inner), OfOperation(operation)) => Selects(inner, operation)
    case (OnSchema(pattern), OfSchema(name)) => Wildcard(pattern, name)
    case _ => false
  }

  /** The last rule that both applies to the subject and mentions the option. */
  predicate Decides(rules: seq<Rule>, subject: Subject, option: string, i: nat) {
    && i < |rules|
    && Applies(rules[i].filter, subject) && option in rules[i].values
    && forall j :: i < j < |rules| ==> !(Applies(rules[j].filter, subject) && option in rules[j].values)
  }

  function Lookup(options: map<string, string>, option: string): Option<string> {
    if option in options then Some(options[option]) else None
  }

  /** An option as the rules leave it, the last ones first. */
  function Overlaid(rules: seq<Rule>, subject: Subject, base: map<string, string>, option: string): Option<string> {
    if rules == [] then Lookup(base, option)
    else
      var last := rules[|rules| - 1];
      if Applies(last.filter, subject) && option in last.values then Some(last.values[option])
      else Overlaid(rules[..|rules| - 1], subject, base, option)
  }

  method Resolve(rules: seq<Rule>, subject: Subject, base: map<string, string>) returns (resolved: map<string, string>)
    ensures forall option :: Lookup(resolved, option) == Overlaid(rules, subject, base, option)
  {
    hide Applies;
    resolved := base;
    for n := 0 to |rules|
      invariant forall option :: Lookup(resolved, option) == Overlaid(rules[..n], subject, base, option)
    {
      assert rules[..n + 1][..n] == rules[..n];
      if Applies(rules[n].filter, subject) {
        resolved := resolved + rules[n].values;
      }
    }
    assert rules[..|rules|] == rules;
  }

  /** An option has the value of the last matching rule that mentions it; an option that no
      matching rule mentions is as it was. */
  lemma {:induction false} LastRuleWins(rules: seq<Rule>, subject: Subject, base: map<string, string>, option: string, i: nat)
    ensures Decides(rules, subject, option, i) ==>
      Overlaid(rules, subject, base, option) == Some(rules[i].values[option])
    ensures (forall j :: 0 <= j < |rules| ==> !(Applies(rules[j].filter, subject) && option in rules[j].values)) ==>
      Overlaid(rules, subject, base, option) == Lookup(base, option)
  {
    hide Applies;
    if rules != [] {
      LastRuleWins(rules[..|rules| - 1], subject, base, option, i);
    }
  }

  // ----- selection

  datatype Selection = Selection(includes: seq<Filter>, excludes: seq<Filter>)

  predicate Included(selection: Selection, operation: Operation) {
    if exists filter :: filter in selection.excludes && Selects(filter, operation) then false
    else selection.includes == [] || exists filter :: filter in selection.includes && Selects(filter, operation)
  }

  /** An inclusion narrows a selection of everything and widens any other, up to the exclusions. */
  lemma InclusionWidens(selection: Selection, filter: Filter, operation: Operation)
    ensures var wider := selection.(includes := selection.includes + [filter]);
      if Selection([], selection.excludes) == selection then Included(wider, operation) <==> Included(selection, operation) && Selects(filter, operation)
      else Included(wider, operation) <==> Included(selection, operation) || (Selects(filter, operation) && Included(Selection([], selection.excludes), operation))
    ensures Included(Selection([], []), operation)
  {
    hide Selects;
    var wider := selection.(includes := selection.includes + [filter]);
    assert forall f :: f in wider.includes <==> f in selection.includes || f == filter;
  }

  /** Excluding more never selects more, and an exclusion wins over every inclusion. */
  lemma ExclusionWins(selection: Selection, filter: Filter, operation: Operation)
    ensures var stricter := selection.(excludes := selection.excludes + [filter]);
      Included(stricter, operation) <==> Included(selection, operation) && !Selects(filter, operation)
  {
    hide Selects;
    var stricter := selection.(excludes := selection.excludes + [filter]);
    assert forall f :: f in stricter.excludes <==> f in selection.excludes || f == filter;
  }

  // ----- what filters mean

  /** No text that a filter looks at has a star. */
  ghost predicate StarFree(operation: Operation) {
    '*' !in operation.id && '*' !in operation.path && forall tag :: tag in operation.tags ==> '*' !in tag
  }

  ghost predicate Describes(filter: Filter, operation: Operation) {
    || (exists pieces :: filter.ById? && Fits(filter.pattern, pieces, operation.id))
    || (exists pieces :: filter.ByPath? && Fits(filter.pattern, pieces, operation.path))
    || (exists pieces, tag :: filter.ByTag? && tag in operation.tags && Fits(filter.pattern, pieces, tag))
    || filter == ByVerb(operation.verb)
  }

  /** A filter selects what it describes. */
  lemma SelectsExactly(filter: Filter, operation: Operation)
    requires StarFree(operation)
    ensures Selects(filter, operation) <==> Describes(filter, operation)
  {
    hide Wildcard, Glob, Fits;
    if !filter.ByVerb? {
      forall value | '*' !in value ensures Wildcard(filter.pattern, value) <==> exists pieces :: Fits(filter.pattern, pieces, value) {
        Complete(filter.pattern, value);
        GlobExactly(filter.pattern, value);
      }
    }
  }

  /** Operation rules are for the operations they describe, schema rules for the schemas. */
  lemma AppliesExactly(filter: OverrideFilter, subject: Subject)
    requires subject.OfOperation? ==> StarFree(subject.operation)
    requires subject.OfSchema? ==> '*' !in subject.name
    ensures Applies(filter, subject) <==>
      || (exists inner, operation :: filter == OnOperation(inner) && subject == OfOperation(operation) && Describes(inner, operation))
      || (exists pieces :: filter.OnSchema? && subject.OfSchema? && Fits(filter.pattern, pieces, subject.name))
  {
    hide Wildcard, Glob, Fits, Describes, Selects;
    if filter.OnOperation? && subject.OfOperation? {
      SelectsExactly(filter.filter, subject.operation);
    }
    if filter.OnSchema? && subject.OfSchema? {
      Complete(filter.pattern, subject.name);
      GlobExactly(filter.pattern, subject.name);
    }
  }
}
