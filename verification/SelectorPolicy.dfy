// The selector policy: an allow-list united from inline entries and files, evaluated at startup
// and re-evaluated by the reload task, which keeps the last good rules and records gauges.

module PolicyRules {
  import opened Prelude
  import opened Text
  import opened PolicyFiles

  /** The evaluated policy. Allowing everything is a variant of its own. */
  datatype Rules = AllowAll | AllowList(keys: seq<string>, prefixes: seq<string>)

  predicate Granted(keys: seq<string>, prefixes: seq<string>, key: string) {
    key in keys || exists p | p in prefixes :: StartsWith(key, p)
  }

  /** `PolicyRules::allows`. */
  predicate Allows(rules: Rules, key: string) {
    match rules
    case AllowAll => true
    case AllowList(keys, prefixes) => Granted(keys, prefixes, key)
  }

  /** The key is one of the list's keys, or continues one of its prefixes. */
  ghost predicate ListGrants(keys: seq<string>, prefixes: seq<string>, key: string) {
    || (exists i :: 0 <= i < |keys| && keys[i] == key)
    || (exists i, rest :: 0 <= i < |prefixes| && key == prefixes[i] + rest)
  }

  ghost predicate RulesGrant(rules: Rules, key: string) {
    rules == AllowAll || (rules.AllowList? && ListGrants(rules.keys, rules.prefixes, key))
  }

  lemma GrantedExactly(keys: seq<string>, prefixes: seq<string>, key: string)
    ensures Granted(keys, prefixes, key) <==> ListGrants(keys, prefixes, key)
  {
    if p :| p in prefixes && StartsWith(key, p) {
      var i :| 0 <= i < |prefixes| && prefixes[i] == p;
      assert key == prefixes[i] + key[|p|..];
    }
    if i, rest :| 0 <= i < |prefixes| && key == prefixes[i] + rest {
      assert prefixes[i] in prefixes && StartsWith(key, prefixes[i]);
    }
  }

  /** A key is allowed exactly when everything is, or it is listed, or it continues a listed prefix. */
  lemma AllowsExactly(rules: Rules, key: string)
    ensures Allows(rules, key) <==> RulesGrant(rules, key)
  {
    if rules.AllowList? {
      GrantedExactly(rules.keys, rules.prefixes, key);
    }
  }

  /** `PolicyRules::counts`. */
  function Counts(rules: Rules): (nat, nat) {
    match rules
    case AllowAll => (0, 0)
    case AllowList(keys, prefixes) => (|keys|, |prefixes|)
  }

  /** All entries trimmed, unless one of them is blank. */
  function NormalizedEntries(entries: seq<string>): Result<seq<string>, PolicyError> {
    if exists e | e in entries :: Trim(e) == "" then Err(BlankEntry)
    else Ok(seq(|entries|, i requires 0 <= i < |entries| => Trim(entries[i])))
  }

  /** `normalize_policy_entries`, and the same loop in `normalize_entries` of the auth policy. */
  method NormalizeEntries(entries: seq<string>) returns (r: Result<seq<string>, PolicyError>)
    ensures r == NormalizedEntries(entries)
  {
    var normalized: seq<string> := [];
    for i := 0 to |entries|
      invariant |normalized| == i
      invariant forall k | 0 <= k < i :: normalized[k] == Trim(entries[k]) && normalized[k] != ""
    {
      var entry := Trim(entries[i]);
      if entry == "" {
        assert Trim(entries[i]) == "" && entries[i] in entries;
        return Err(BlankEntry);
      }
      normalized := normalized + [entry];
    }
    assert normalized == seq(|entries|, i requires 0 <= i < |entries| => Trim(entries[i]));
    assert forall e | e in entries :: Trim(e) != "";
    return Ok(normalized);
  }

  predicate NoBlankEntries(entries: seq<string>) {
    forall e | e in entries :: e != ""
  }

  lemma NormalizedNotBlank(entries: seq<string>)
    requires NormalizedEntries(entries).Ok?
    ensures NoBlankEntries(NormalizedEntries(entries).value)
  {
  }

  lemma GrantedUnion(a: seq<string>, b: seq<string>, p: seq<string>, q: seq<string>, key: string)
    ensures Granted(a + b, p + q, key) <==> Granted(a, p, key) || Granted(b, q, key)
  {
    if Granted(a, p, key) && key !in a {
      var x :| x in p && StartsWith(key, x);
      assert x in p + q;
    }
    if Granted(b, q, key) && key !in b {
      var x :| x in q && StartsWith(key, x);
      assert x in p + q;
    }
  }

  /** A list is never an allow-all in disguise: without blank entries the empty key is refused. */
  predicate IsProperList(rules: Rules) {
    && rules.AllowList?
    && (rules.keys != [] || rules.prefixes != [])
    && NoBlankEntries(rules.keys) && NoBlankEntries(rules.prefixes)
  }

  lemma ProperListRefuses(rules: Rules)
    requires IsProperList(rules)
    ensures !Allows(rules, "")
    ensures exists key :: key != "" && Allows(rules, key)
  {
    if rules.keys != [] {
      assert rules.keys[0] in rules.keys;
      assert Allows(rules, rules.keys[0]);
    } else {
      assert rules.prefixes[0] in rules.prefixes && StartsWith(rules.prefixes[0], rules.prefixes[0]);
      assert Allows(rules, rules.prefixes[0]);
    }
  }
}

/** What it means, for any evaluation of any input, to keep serving the last good value. */
module Reloading {
  import opened Prelude

  /** Reading `k` is the last that evaluated, and `value` is its evaluation. */
  predicate LastGood<I, V(==), E>(evaluate: I -> Result<V, E>, readings: seq<I>, k: nat, value: V) {
    && k < |readings|
    && evaluate(readings[k]).Ok? && evaluate(readings[k]).value == value
    && forall j | k < j < |readings| :: evaluate(readings[j]).Err?
  }

  predicate AllBad<I, V, E>(evaluate: I -> Result<V, E>, readings: seq<I>) {
    forall j | 0 <= j < |readings| :: evaluate(readings[j]).Err?
  }

  /** The value is that of the last good reading, or the initial one if no reading was good. */
  ghost predicate ServesLast<I, V, E>(evaluate: I -> Result<V, E>, initial: V, readings: seq<I>, value: V) {
    || (exists k :: LastGood(evaluate, readings, k, value))
    || (AllBad(evaluate, readings) && value == initial)
  }

  lemma ServesGood<I, V, E>(evaluate: I -> Result<V, E>, initial: V, readings: seq<I>)
    requires readings != [] && evaluate(readings[|readings| - 1]).Ok?
    ensures ServesLast(evaluate, initial, readings, evaluate(readings[|readings| - 1]).value)
  {
    assert LastGood(evaluate, readings, |readings| - 1, evaluate(readings[|readings| - 1]).value);
  }

  lemma ServesPrevious<I, V, E>(evaluate: I -> Result<V, E>, initial: V, readings: seq<I>, value: V)
    requires readings != [] && evaluate(readings[|readings| - 1]).Err?
    requires ServesLast(evaluate, initial, readings[..|readings| - 1], value)
    ensures ServesLast(evaluate, initial, readings, value)
  {
    var init := readings[..|readings| - 1];
    assert readings == init + [readings[|readings| - 1]];
    if !(AllBad(evaluate, init) && value == initial) {
      var k :| LastGood(evaluate, init, k, value);
      assert LastGood(evaluate, readings, k, value);
    }
  }
}

module SelectorPolicy {
  import opened Prelude
  import opened Text
  import opened PolicyFiles
  import opened PolicyRules
  import opened Reloading

  /** Inline entries, fixed for the life of the process, and whether each file is configured. */
  datatype Sources = Sources(
    inlineKeys: seq<string>, inlinePrefixes: seq<string>, keysFile: bool, prefixesFile: bool)
  {
    predicate HasFile() {
      keysFile || prefixesFile
    }
  }

  /** What reading the two files yields at one moment; an unconfigured one is not read. */
  datatype Files = Files(keys: FileRead, prefixes: FileRead)

  function FileEntries(configured: bool, file: FileRead): Result<seq<string>, PolicyError> {
    if configured then ReadPolicyFileOf(file) else Ok([])
  }

  /** What `evaluate` yields: the united entries, unless a file is bad or nothing is left. */
  function Evaluation(sources: Sources, files: Files): Result<Rules, PolicyError> {
    var fileKeys :- FileEntries(sources.keysFile, files.keys);
    var filePrefixes :- FileEntries(sources.prefixesFile, files.prefixes);
    var keys, prefixes := sources.inlineKeys + fileKeys, sources.inlinePrefixes + filePrefixes;
    if keys == [] && prefixes == [] then Err(NoEntries) else Ok(AllowList(keys, prefixes))
  }

  /** `PolicySources::evaluate`. */
  method Evaluate(sources: Sources, files: Files) returns (r: Result<Rules, PolicyError>)
    ensures r == Evaluation(sources, files)
  {
    var keys := sources.inlineKeys;
    if sources.keysFile {
      var entries := ReadPolicyFile(files.keys);
      if entries.Err? {
        return Err(entries.error);
      }
      keys := keys + entries.value;
    }
    var prefixes := sources.inlinePrefixes;
    if sources.prefixesFile {
      var entries := ReadPolicyFile(files.prefixes);
      if entries.Err? {
        return Err(entries.error);
      }
      prefixes := prefixes + entries.value;
    }
    assert sources.inlineKeys + [] == sources.inlineKeys && sources.inlinePrefixes + [] == sources.inlinePrefixes;
    if sources.HasFile() && keys == [] && prefixes == [] {
      return Err(NoEntries);
    }
    if keys == [] && prefixes == [] {
      return Err(NoEntries);
    }
    return Ok(AllowList(keys, prefixes));
  }

  datatype Args = Args(
    keys: seq<string>, prefixes: seq<string>, keysFile: bool, prefixesFile: bool, allowAll: bool)
  {
    predicate HasEntries() {
      keys != [] || prefixes != [] || keysFile || prefixesFile
    }
  }

  /** `SelectorPolicy::from_args`: the sources kept and the rules first served. */
  function FromArgs(args: Args, files: Files): Result<(Sources, Rules), PolicyError> {
    if !args.allowAll && !args.HasEntries() then Err(NotConfigured)
    else if args.allowAll && args.HasEntries() then Err(ConflictingModes)
    else
      var keys :- NormalizedEntries(args.keys);
      var prefixes :- NormalizedEntries(args.prefixes);
      var sources := Sources(keys, prefixes, args.keysFile, args.prefixesFile);
      if args.allowAll then Ok((sources, AllowAll))
      else
        var rules :- Evaluation(sources, files);
        Ok((sources, rules))
  }

  /**
   * The provider starts exactly when it is told to allow everything and given no entries, or
   * given entries of which no inline one is blank and which evaluate.
   */
  lemma StartsExactly(args: Args, files: Files)
    ensures var given := args.keys != [] || args.prefixes != [] || args.keysFile || args.prefixesFile;
            FromArgs(args, files).Ok? <==>
            if args.allowAll then !given
            else
              && given
              && (forall e | e in args.keys + args.prefixes :: Trim(e) != "")
              && Evaluation(SourcesOf(args), files).Ok?
    ensures FromArgs(args, files).Ok? && !args.allowAll ==>
              FromArgs(args, files).value == (SourcesOf(args), Evaluation(SourcesOf(args), files).value)
  {
    assert forall e :: e in args.keys + args.prefixes <==> e in args.keys || e in args.prefixes;
    TrimmedAll(args.keys);
    TrimmedAll(args.prefixes);
  }

  function Trimmed(entries: seq<string>): seq<string> {
    seq(|entries|, i requires 0 <= i < |entries| => Trim(entries[i]))
  }

  function SourcesOf(args: Args): Sources {
    Sources(Trimmed(args.keys), Trimmed(args.prefixes), args.keysFile, args.prefixesFile)
  }

  lemma TrimmedAll(entries: seq<string>)
    ensures NormalizedEntries(entries).Ok? <==> forall e | e in entries :: Trim(e) != ""
    ensures NormalizedEntries(entries).Ok? ==> NormalizedEntries(entries).value == Trimmed(entries)
  {
  }

  // ---------- The reload task ----------

  datatype ReloadOutcome = Success | Unchanged | Failure

  /** The part of the metrics that reloading writes. */
  datatype Gauges = Gauges(reloads: map<ReloadOutcome, nat>, activeKeys: nat, activePrefixes: nat, succeeded: bool)

  const NO_GAUGES := Gauges(map[], 0, 0, false)

  function CountOf(g: Gauges, outcome: ReloadOutcome): nat {
    if outcome in g.reloads then g.reloads[outcome] else 0
  }

  function Baseline(g: Gauges, counts: (nat, nat)): Gauges {
    g.(activeKeys := counts.0, activePrefixes := counts.1, succeeded := true)
  }

  function Recorded(g: Gauges, outcome: ReloadOutcome, counts: (nat, nat)): Gauges {
    Gauges(g.reloads[outcome := CountOf(g, outcome) + 1], counts.0, counts.1, g.succeeded || outcome != Failure)
  }

  class Metrics {
    var reloads: map<ReloadOutcome, nat>
    var activeKeys: nat
    var activePrefixes: nat
    var succeeded: bool

    ghost function State(): Gauges
      reads this
    {
      Gauges(reloads, activeKeys, activePrefixes, succeeded)
    }

    constructor ()
      ensures State() == NO_GAUGES
    {
      reloads, activeKeys, activePrefixes, succeeded := map[], 0, 0, false;
    }

    /** `record_policy_baseline`. */
    method RecordPolicyBaseline(keys: nat, prefixes: nat)
      modifies this
      ensures State() == Baseline(old(State()), (keys, prefixes))
    {
      activeKeys, activePrefixes := keys, prefixes;
      if !succeeded {
        succeeded := true;
      }
    }

    /** `record_policy_reload`. */
    method RecordPolicyReload(outcome: ReloadOutcome, keys: nat, prefixes: nat)
      modifies this
      ensures State() == Recorded(old(State()), outcome, (keys, prefixes))
    {
      var count := if outcome in reloads then reloads[outcome] else 0;
      reloads := reloads[outcome := count + 1];
      activeKeys, activePrefixes := keys, prefixes;
      if outcome != Failure {
        succeeded := true;
      }
    }
  }

  /** What a reload leaves and returns; an error leaves the rules alone. */
  function Reloaded(sources: Sources, rules: Rules, files: Files): (Rules, Result<bool, PolicyError>) {
    if !sources.HasFile() then (rules, Ok(false))
    else
      match Evaluation(sources, files)
      case Err(e) => (rules, Err(e))
      case Ok(next) => (next, Ok(next != rules))
  }

  class SelectorPolicy {
    const sources: Sources
    var rules: Rules

    constructor (sources: Sources, rules: Rules)
      ensures this.sources == sources && this.rules == rules
    {
      this.sources, this.rules := sources, rules;
    }

    /** `SelectorPolicy::reload`. */
    method Reload(files: Files) returns (r: Result<bool, PolicyError>)
      modifies this
      ensures (rules, r) == Reloaded(sources, old(rules), files)
    {
      if !sources.HasFile() {
        return Ok(false);
      }
      var next := Evaluate(sources, files);
      if next.Err? {
        return Err(next.error);
      }
      if rules == next.value {
        return Ok(false);
      }
      rules := next.value;
      return Ok(true);
    }
  }

  /** The rules being served and the gauges recorded. */
  datatype Served = Served(rules: Rules, gauges: Gauges)

  function OutcomeOf(r: Result<bool, PolicyError>): ReloadOutcome {
    match r
    case Ok(true) => Success
    case Ok(false) => Unchanged
    case Err(_) => Failure
  }

  function Cycle(sources: Sources, s: Served, files: Files): Served {
    var (rules, r) := Reloaded(sources, s.rules, files);
    Served(rules, Recorded(s.gauges, OutcomeOf(r), Counts(rules)))
  }

  function Cycles(sources: Sources, s: Served, readings: seq<Files>): Served {
    if readings == [] then s else Cycle(sources, Cycles(sources, s, readings[..|readings| - 1]), readings[|readings| - 1])
  }

  /** The loop of `spawn_policy_reload`: one cycle per tick before shutdown. */
  method ReloadLoop(policy: SelectorPolicy, metrics: Metrics, readings: seq<Files>)
    requires policy.sources.HasFile()
    modifies policy, metrics
    ensures Served(policy.rules, metrics.State()) ==
            Cycles(policy.sources, old(Served(policy.rules, metrics.State())), readings)
  {
    for i := 0 to |readings|
      invariant Served(policy.rules, metrics.State()) ==
                Cycles(policy.sources, old(Served(policy.rules, metrics.State())), readings[..i])
    {
      assert readings[..i + 1][..i] == readings[..i];
      var reloaded := policy.Reload(readings[i]);
      var outcome := match reloaded case Ok(true) => Success case Ok(false) => Unchanged case Err(_) => Failure;
      var (keys, prefixes) := Counts(policy.rules);
      metrics.RecordPolicyReload(outcome, keys, prefixes);
    }
    assert readings[..|readings|] == readings;
  }

  // ---------- What is served over a whole run ----------

  /** A file that is not configured, or can be read and is at most 4 MiB long. */
  predicate Readable(configured: bool, file: FileRead) {
    configured ==> file.Contents? && Utf8Len(file.text) <= 4_194_304
  }

  /** The entries a file contributes. */
  function EntriesIn(configured: bool, file: FileRead): seq<string> {
    if configured && file.Contents? then RustEntries(file.text) else []
  }

  lemma ReadsExactly(configured: bool, file: FileRead)
    ensures FileEntries(configured, file).Ok? <==> Readable(configured, file)
    ensures Readable(configured, file) ==> FileEntries(configured, file).value == EntriesIn(configured, file)
  {
  }

  /**
   * Evaluation succeeds exactly when every configured file is readable and small enough and
   * some entry exists, and then grants exactly the union of the inline and the file grants.
   */
  lemma EvaluatesExactly(sources: Sources, files: Files, key: string)
    ensures var k, p := EntriesIn(sources.keysFile, files.keys), EntriesIn(sources.prefixesFile, files.prefixes);
            && (Evaluation(sources, files).Ok? <==>
                && Readable(sources.keysFile, files.keys) && Readable(sources.prefixesFile, files.prefixes)
                && |sources.inlineKeys| + |k| + |sources.inlinePrefixes| + |p| > 0)
            && (Evaluation(sources, files).Ok? ==>
                  (Allows(Evaluation(sources, files).value, key) <==>
                   ListGrants(sources.inlineKeys, sources.inlinePrefixes, key) || ListGrants(k, p, key)))
  {
    ReadsExactly(sources.keysFile, files.keys);
    ReadsExactly(sources.prefixesFile, files.prefixes);
    var k, p := EntriesIn(sources.keysFile, files.keys), EntriesIn(sources.prefixesFile, files.prefixes);
    United(sources, files, k, p);
    GrantedUnion(sources.inlineKeys, k, sources.inlinePrefixes, p, key);
    GrantedExactly(sources.inlineKeys, sources.inlinePrefixes, key);
    GrantedExactly(k, p, key);
  }

  lemma United(sources: Sources, files: Files, k: seq<string>, p: seq<string>)
    ensures FileEntries(sources.keysFile, files.keys) == Ok(k) && FileEntries(sources.prefixesFile, files.prefixes) == Ok(p) ==>
              Evaluation(sources, files) ==
              if |sources.inlineKeys| + |k| + |sources.inlinePrefixes| + |p| == 0 then Err(NoEntries)
              else Ok(AllowList(sources.inlineKeys + k, sources.inlinePrefixes + p))
    ensures Evaluation(sources, files).Ok? ==>
              FileEntries(sources.keysFile, files.keys).Ok? && FileEntries(sources.prefixesFile, files.prefixes).Ok?
  {
  }

  lemma FileEntriesNotBlank(configured: bool, file: FileRead)
    requires FileEntries(configured, file).Ok?
    ensures NoBlankEntries(FileEntries(configured, file).value)
  {
    if configured {
      EntriesNotEmpty(RustLines(Split(file.text, '\n')));
    }
  }

  lemma EvaluatesToProperList(sources: Sources, files: Files)
    requires NoBlankEntries(sources.inlineKeys) && NoBlankEntries(sources.inlinePrefixes)
    requires Evaluation(sources, files).Ok?
    ensures IsProperList(Evaluation(sources, files).value)
  {
    FileEntriesNotBlank(sources.keysFile, files.keys);
    FileEntriesNotBlank(sources.prefixesFile, files.prefixes);
  }

  function EvaluatorOf(sources: Sources): Files -> Result<Rules, PolicyError> {
    (files: Files) => Evaluation(sources, files)
  }

  function BadReadings(sources: Sources, readings: seq<Files>): set<nat> {
    set k | 0 <= k < |readings| && Evaluation(sources, readings[k]).Err?
  }

  lemma BadReadingsSnoc(sources: Sources, readings: seq<Files>)
    requires readings != []
    ensures |BadReadings(sources, readings)| == |BadReadings(sources, readings[..|readings| - 1])|
            + if Evaluation(sources, readings[|readings| - 1]).Err? then 1 else 0
  {
    var n := |readings| - 1;
    var before := BadReadings(sources, readings[..n]);
    assert BadReadings(sources, readings) == before + if Evaluation(sources, readings[n]).Err? then {n} else {};
  }

  lemma CycleServes(sources: Sources, s: Served, files: Files)
    requires sources.HasFile()
    ensures Cycle(sources, s, files).rules ==
            if EvaluatorOf(sources)(files).Ok? then EvaluatorOf(sources)(files).value else s.rules
  {
  }

  /**
   * After any number of reload cycles with any file contents, the rules served are those of the
   * last reading that evaluated, or the initial ones if none did.
   */
  lemma {:induction false} ServesLastGood(sources: Sources, start: Served, readings: seq<Files>)
    requires sources.HasFile()
    ensures ServesLast(EvaluatorOf(sources), start.rules, readings, Cycles(sources, start, readings).rules)
  {
    var evaluate := EvaluatorOf(sources);
    if readings != [] {
      var n := |readings| - 1;
      var before := Cycles(sources, start, readings[..n]);
      ServesLastGood(sources, start, readings[..n]);
      CycleServes(sources, before, readings[n]);
      if evaluate(readings[n]).Ok? {
        ServesGood(evaluate, start.rules, readings);
      } else {
        ServesPrevious(evaluate, start.rules, readings, before.rules);
      }
    }
  }

  /** The gauges are the numbers of keys and of prefixes served, both zero when everything is allowed. */
  predicate ShowsCounts(s: Served) {
    && s.gauges.activeKeys == (if s.rules.AllowAll? then 0 else |s.rules.keys|)
    && s.gauges.activePrefixes == (if s.rules.AllowAll? then 0 else |s.rules.prefixes|)
  }

  /**
   * The gauges recorded after each cycle are the counts of the rules served, and the reload
   * counters say how many cycles ran and how many of them failed.
   */
  lemma {:induction false} GaugesTellTheTruth(sources: Sources, start: Served, readings: seq<Files>)
    requires sources.HasFile()
    requires ShowsCounts(start)
    ensures var s, g0 := Cycles(sources, start, readings), start.gauges;
            && ShowsCounts(s)
            && CountOf(s.gauges, Failure) == CountOf(g0, Failure) + |BadReadings(sources, readings)|
            && CountOf(s.gauges, Success) + CountOf(s.gauges, Unchanged) + CountOf(s.gauges, Failure) ==
               CountOf(g0, Success) + CountOf(g0, Unchanged) + CountOf(g0, Failure) + |readings|
  {
    if readings == [] {
      assert BadReadings(sources, readings) == {};
    } else {
      var n := |readings| - 1;
      GaugesTellTheTruth(sources, start, readings[..n]);
      BadReadingsSnoc(sources, readings);
      CycleCounts(sources, Cycles(sources, start, readings[..n]), readings[n]);
    }
  }

  lemma CycleCounts(sources: Sources, s: Served, files: Files)
    requires sources.HasFile()
    ensures var g, g' := s.gauges, Cycle(sources, s, files).gauges;
            && CountOf(g', Failure) == CountOf(g, Failure) + (if Evaluation(sources, files).Err? then 1 else 0)
            && CountOf(g', Success) + CountOf(g', Unchanged) + CountOf(g', Failure) ==
               CountOf(g, Success) + CountOf(g, Unchanged) + CountOf(g, Failure) + 1
  {
  }

  /** The served rules change only in a cycle that is counted as a success. */
  lemma OnlySuccessChangesRules(sources: Sources, s: Served, files: Files)
    ensures var s' := Cycle(sources, s, files);
            && (s'.rules != s.rules <==> CountOf(s'.gauges, Success) == CountOf(s.gauges, Success) + 1)
            && (s'.rules == s.rules ==> CountOf(s'.gauges, Success) == CountOf(s.gauges, Success))
  {
  }

  lemma {:induction false} ListStaysProper(sources: Sources, start: Served, readings: seq<Files>)
    requires NoBlankEntries(sources.inlineKeys) && NoBlankEntries(sources.inlinePrefixes)
    requires IsProperList(start.rules)
    ensures IsProperList(Cycles(sources, start, readings).rules)
  {
    if readings != [] {
      ListStaysProper(sources, start, readings[..|readings| - 1]);
      if Evaluation(sources, readings[|readings| - 1]).Ok? {
        EvaluatesToProperList(sources, readings[|readings| - 1]);
      }
    }
  }

  lemma {:induction false} FixedWithoutFiles(sources: Sources, start: Served, readings: seq<Files>)
    requires !sources.HasFile()
    ensures Cycles(sources, start, readings).rules == start.rules
  {
    if readings != [] {
      FixedWithoutFiles(sources, start, readings[..|readings| - 1]);
    }
  }

  /**
   * Fail closed: a provider that starts serves everything if and only if it was told to, at
   * startup and after every run of reloads. Otherwise it serves a non-empty list without blank
   * entries, which refuses the empty key.
   */
  lemma AllowAllOnlyWhenTold(args: Args, files: Files, gauges: Gauges, readings: seq<Files>)
    requires FromArgs(args, files).Ok?
    ensures var (sources, rules) := FromArgs(args, files).value;
            var served := Cycles(sources, Served(rules, gauges), readings).rules;
            && (served == AllowAll <==> args.allowAll)
            && (!args.allowAll ==> IsProperList(served) && !Allows(served, ""))
  {
    var (sources, rules) := FromArgs(args, files).value;
    NormalizedNotBlank(args.keys);
    NormalizedNotBlank(args.prefixes);
    if args.allowAll {
      FixedWithoutFiles(sources, Served(rules, gauges), readings);
    } else {
      EvaluatesToProperList(sources, files);
      ListStaysProper(sources, Served(rules, gauges), readings);
      ProperListRefuses(Cycles(sources, Served(rules, gauges), readings).rules);
    }
  }

  // ---------- The coverage checker ----------

  /**
   * What a rendered Deployment configures: the comma-separated environment values, the texts of
   * the mounted policy files, and whether everything is allowed.
   */
  datatype Manifest = Manifest(
    keysValue: Option<string>, prefixesValue: Option<string>,
    keysText: Option<string>, prefixesText: Option<string>, allowAll: bool)

  function ValueEntries(value: Option<string>): seq<string> {
    if value.Some? then Split(value.value, ',') else []
  }

  function FileOf(text: Option<string>): FileRead {
    if text.Some? then Contents(text.value) else Unreadable
  }

  /** The rules the provider serves when started with the manifest. */
  function ProviderRules(m: Manifest): Result<Rules, PolicyError> {
    var args := Args(ValueEntries(m.keysValue), ValueEntries(m.prefixesValue), m.keysText.Some?, m.prefixesText.Some?, m.allowAll);
    match FromArgs(args, Files(FileOf(m.keysText), FileOf(m.prefixesText)))
    case Err(e) => Err(e)
    case Ok((_, rules)) => Ok(rules)
  }

  /** The checker's own test: `include?` on the set of keys, and `start_with?` on each prefix. */
  predicate CheckerFinds(keys: set<string>, prefixes: seq<string>, key: string) {
    || key in keys
    || exists p | p in prefixes :: |p| <= |key| && key[..|p|] == p
  }

  function Elements(entries: seq<string>): set<string> {
    set e | e in entries
  }

  lemma CheckerFindsExactly(keys: seq<string>, prefixes: seq<string>, key: string)
    ensures CheckerFinds(Elements(keys), prefixes, key) <==> Granted(keys, prefixes, key)
  {
  }

  function CheckedEntries(text: Option<string>): seq<string> {
    if text.Some? then RubyEntries(text.value) else []
  }

  /** The checker's verdict on one key. */
  predicate CheckerCovers(m: Manifest, key: string) {
    || m.allowAll
    || CheckerFinds(Elements(CheckedEntries(m.keysValue)) + Elements(CheckedEntries(m.keysText)),
                    CheckedEntries(m.prefixesValue) + CheckedEntries(m.prefixesText), key)
  }

  lemma CoversExactly(m: Manifest, key: string)
    ensures CheckerCovers(m, key) <==>
            m.allowAll
            || Granted(CheckedEntries(m.keysValue) + CheckedEntries(m.keysText),
                       CheckedEntries(m.prefixesValue) + CheckedEntries(m.prefixesText), key)
  {
    var a, b := CheckedEntries(m.keysValue), CheckedEntries(m.keysText);
    assert Elements(a) + Elements(b) == Elements(a + b);
    CheckerFindsExactly(a + b, CheckedEntries(m.prefixesValue) + CheckedEntries(m.prefixesText), key);
  }

  predicate CleanFile(text: Option<string>) {
    text.Some? ==> PlainSpaces(text.value) && forall line | line in Split(text.value, '\n') :: CleanComment(line)
  }

  predicate CleanValue(value: Option<string>) {
    value.Some? ==> PlainSpaces(value.value) && '\n' !in value.value
  }

  /** Comment lines carry only blank or `#`-led pieces after a comma, and values are on one line. */
  predicate Clean(m: Manifest) {
    CleanFile(m.keysText) && CleanFile(m.prefixesText) && CleanValue(m.keysValue) && CleanValue(m.prefixesValue)
  }

  /** No entry outside comments is `#`-led. */
  predicate Unmarked(m: Manifest) {
    && (forall e | e in ValueEntries(m.keysValue) + ValueEntries(m.prefixesValue) :: !HashLed(Trim(e)))
    && (m.keysText.Some? ==> forall line | line in Split(m.keysText.value, '\n') :: CleanEntries(line))
    && (m.prefixesText.Some? ==> forall line | line in Split(m.prefixesText.value, '\n') :: CleanEntries(line))
  }

  lemma GrantedMonotone(a: seq<string>, p: seq<string>, b: seq<string>, q: seq<string>, key: string)
    requires (forall e | e in a :: e in b) && (forall e | e in p :: e in q)
    requires Granted(a, p, key)
    ensures Granted(b, q, key)
  {
    if key !in a {
      var x :| x in p && StartsWith(key, x);
      assert x in q;
    }
  }

  lemma {:induction false} NormalizedKept(entries: seq<string>)
    requires forall e | e in entries :: Trim(e) != ""
    ensures Kept(Trim, entries) == seq(|entries|, i requires 0 <= i < |entries| => Trim(entries[i]))
  {
    if entries != [] {
      NormalizedKept(entries[1..]);
      assert entries == [entries[0]] + entries[1..];
    }
  }

  /** A value the provider accepts, as the checker reads it: without its `#`-led entries. */
  lemma ValueRead(value: Option<string>)
    requires CleanValue(value) && NormalizedEntries(ValueEntries(value)).Ok?
    ensures CheckedEntries(value) == Unhashed(NormalizedEntries(ValueEntries(value)).value)
  {
    if value.Some? {
      var text := value.value;
      NormalizedKept(Split(text, ','));
      assert Split("", ',') == [""] && Trim("") == "";
      assert text == "" ==> "" in Split(text, ',') && Trim("") == "";
      OneLine(text);
      LineInPieces(text);
    }
  }

  lemma ValueWithin(value: Option<string>)
    requires CleanValue(value) && NormalizedEntries(ValueEntries(value)).Ok?
    ensures forall e | e in CheckedEntries(value) :: e in NormalizedEntries(ValueEntries(value)).value
    ensures (forall e | e in ValueEntries(value) :: !HashLed(Trim(e))) ==>
              CheckedEntries(value) == NormalizedEntries(ValueEntries(value)).value
  {
    ValueRead(value);
    UnhashedExactly(NormalizedEntries(ValueEntries(value)).value);
  }

  lemma FileWithin(text: Option<string>)
    requires CleanFile(text)
    ensures forall e | e in CheckedEntries(text) :: e in EntriesIn(text.Some?, FileOf(text))
    ensures text.Some? && (forall line | line in Split(text.value, '\n') :: CleanEntries(line)) ==>
              CheckedEntries(text) == EntriesIn(text.Some?, FileOf(text))
  {
    if text.Some? {
      CheckerEntriesAreProviderEntries(text.value);
      ParsersAgreeExactly(text.value);
    }
  }

  /** What the provider serves, in terms of the entries it reads from values and from files. */
  lemma ProviderAllows(m: Manifest, key: string)
    requires ProviderRules(m).Ok? && !m.allowAll
    ensures NormalizedEntries(ValueEntries(m.keysValue)).Ok? && NormalizedEntries(ValueEntries(m.prefixesValue)).Ok?
    ensures Allows(ProviderRules(m).value, key) <==>
            || Granted(NormalizedEntries(ValueEntries(m.keysValue)).value,
                       NormalizedEntries(ValueEntries(m.prefixesValue)).value, key)
            || Granted(EntriesIn(m.keysText.Some?, FileOf(m.keysText)),
                       EntriesIn(m.prefixesText.Some?, FileOf(m.prefixesText)), key)
  {
    var sources := Sources(
      NormalizedEntries(ValueEntries(m.keysValue)).value, NormalizedEntries(ValueEntries(m.prefixesValue)).value,
      m.keysText.Some?, m.prefixesText.Some?);
    var files := Files(FileOf(m.keysText), FileOf(m.prefixesText));
    EvaluatesExactly(sources, files, key);
    GrantedExactly(sources.inlineKeys, sources.inlinePrefixes, key);
    GrantedExactly(EntriesIn(m.keysText.Some?, files.keys), EntriesIn(m.prefixesText.Some?, files.prefixes), key);
  }

  /**
   * What the checker calls covered the provider allows, whenever the provider starts with files
   * in which only blank or `#`-led pieces follow the commas of a comment line.
   */
  lemma CoveredIsAllowed(m: Manifest, key: string)
    requires ProviderRules(m).Ok? && Clean(m) && CheckerCovers(m, key)
    ensures RulesGrant(ProviderRules(m).value, key)
  {
    AllowsExactly(ProviderRules(m).value, key);
    CoversExactly(m, key);
    if !m.allowAll {
      ProviderAllows(m, key);
      ValueWithin(m.keysValue);
      ValueWithin(m.prefixesValue);
      FileWithin(m.keysText);
      FileWithin(m.prefixesText);
      var k, p := NormalizedEntries(ValueEntries(m.keysValue)).value, NormalizedEntries(ValueEntries(m.prefixesValue)).value;
      var kf, pf := EntriesIn(m.keysText.Some?, FileOf(m.keysText)), EntriesIn(m.prefixesText.Some?, FileOf(m.prefixesText));
      GrantedMonotone(CheckedEntries(m.keysValue) + CheckedEntries(m.keysText),
                      CheckedEntries(m.prefixesValue) + CheckedEntries(m.prefixesText), k + kf, p + pf, key);
      GrantedUnion(k, kf, p, pf, key);
    }
  }

  /** If moreover no entry is `#`-led, the checker covers exactly what the provider allows. */
  lemma CoveredExactlyWhenAllowed(m: Manifest, key: string)
    requires ProviderRules(m).Ok? && Clean(m) && Unmarked(m)
    ensures CheckerCovers(m, key) <==> RulesGrant(ProviderRules(m).value, key)
  {
    AllowsExactly(ProviderRules(m).value, key);
    CoversExactly(m, key);
    if !m.allowAll {
      ProviderAllows(m, key);
      ValueWithin(m.keysValue);
      ValueWithin(m.prefixesValue);
      FileWithin(m.keysText);
      FileWithin(m.prefixesText);
      GrantedUnion(CheckedEntries(m.keysValue), CheckedEntries(m.keysText),
                   CheckedEntries(m.prefixesValue), CheckedEntries(m.prefixesText), key);
    }
  }

  lemma OneLine(text: string)
    requires text != "" && '\n' !in text
    ensures RustEntries(text) == RustLine(text) && RubyEntries(text) == RubyLine(text)
  {
    SplitWhole(text, '\n');
    assert [text][1..] == [];
    assert RubyAll([text]) == RubyLine(text) + RubyAll([]);
    assert RustAll([text]) == RustLine(text) + RustAll([]);
  }

  predicate PlainEntry(e: string) {
    && e != "" && e[0] != '#' && ',' !in e && '\n' !in e
    && !IsWhitespace(e[|e| - 1]) && !IsRubySpace(e[0]) && !IsRubySpace(e[|e| - 1])
  }

  lemma CommentedPieces(e: string)
    requires PlainEntry(e)
    ensures Kept(RubyStrip, DropTrailingEmpty(["#", e])) == ["#"] + [e]
  {
    TrimKeeps(IsRubySpace, "#");
    TrimKeeps(IsRubySpace, e);
    assert ["#", e][1..] == [e] && [e][1..] == [];
    assert Kept(RubyStrip, [e]) == [e];
  }

  /** An entry after the comma of a comment line is read by the checker and not by the provider. */
  lemma CommentedEntry(e: string)
    requires PlainEntry(e)
    ensures RustEntries("#," + e) == [] && RubyEntries("#," + e) == [e]
  {
    var text := "#," + e;
    OneLine(text);
    TrimKeeps(IsWhitespace, text);
    SplitAfterHead("#", ',', e);
    SplitWhole(e, ',');
    assert "#" + ([','] + e) == text;
    assert ["#"] + [e] == ["#", e];
    CommentedPieces(e);
    assert (["#"] + [e])[1..] == [e] && [e][1..] == [];
    assert Unhashed([e]) == [e] + Unhashed([]);
  }

  lemma PlainValue(e: string)
    requires PlainEntry(e) && !IsWhitespace(e[0])
    ensures NormalizedEntries(ValueEntries(Some(e))) == Ok([e])
  {
    SplitWhole(e, ',');
    TrimKeeps(IsWhitespace, e);
    assert [e][0] == e;
    assert seq(1, i requires 0 <= i < 1 => Trim([e][i])) == [e];
  }

  /** So the condition on comment lines is needed: the checker covers a key the provider refuses. */
  lemma CoveredButRefused(e: string, other: string)
    requires PlainEntry(e) && PlainEntry(other) && !IsWhitespace(other[0]) && e != other
    requires Utf8Len("#," + e) <= MAX_POLICY_FILE_BYTES
    ensures var m := Manifest(Some(other), None, Some("#," + e), None, false);
            && ProviderRules(m).Ok?
            && CheckerCovers(m, e)
            && !RulesGrant(ProviderRules(m).value, e)
  {
    CommentedEntry(e);
    OneKeyServed(other, "#," + e);
    OneKeyCovered(other, "#," + e, e);
    AllowsExactly(AllowList([other], []), e);
    assert [other][0] != e && e !in [other];
  }

  lemma OneKeyServed(key: string, text: string)
    requires PlainEntry(key) && !IsWhitespace(key[0]) && RustEntries(text) == [] && Utf8Len(text) <= MAX_POLICY_FILE_BYTES
    ensures ProviderRules(Manifest(Some(key), None, Some(text), None, false)) == Ok(AllowList([key], []))
  {
    PlainValue(key);
    NothingNormalized();
    EmptyFile(text);
    OneKeyEvaluates(Sources([key], [], true, false), Files(Contents(text), Unreadable), key);
  }

  lemma NothingNormalized()
    ensures NormalizedEntries([]) == Ok([])
  {
    assert |NormalizedEntries([]).value| == 0;
  }

  lemma EmptyFile(text: string)
    requires RustEntries(text) == [] && Utf8Len(text) <= MAX_POLICY_FILE_BYTES
    ensures FileEntries(true, Contents(text)) == Ok([])
  {
  }

  lemma OneKeyEvaluates(sources: Sources, files: Files, key: string)
    requires sources.inlineKeys == [key] && sources.inlinePrefixes == []
    requires FileEntries(sources.keysFile, files.keys) == Ok([]) && FileEntries(sources.prefixesFile, files.prefixes) == Ok([])
    ensures Evaluation(sources, files) == Ok(AllowList([key], []))
  {
    var none: seq<string> := [];
    United(sources, files, none, none);
    assert sources.inlineKeys + none == [key] && sources.inlinePrefixes + none == [];
  }

  lemma OneKeyCovered(key: string, text: string, e: string)
    requires RubyEntries(text) == [e]
    ensures CheckerCovers(Manifest(Some(key), None, Some(text), None, false), e)
  {
    CoversExactly(Manifest(Some(key), None, Some(text), None, false), e);
    assert e in [e];
    assert e in RubyEntries(key) + [e];
  }

  lemma CoveredButRefusedExample()
    ensures PlainEntry("id:a") && PlainEntry("id:b") && !IsWhitespace("id:b"[0]) && "id:a" != "id:b"
    ensures Utf8Len("#," + "id:a") <= MAX_POLICY_FILE_BYTES
  {
    SmallFile("#," + "id:a");
    assert "id:a"[3] != "id:b"[3];
  }

  lemma {:induction false} SmallFile(text: string)
    ensures Utf8Len(text) <= 4 * |text|
  {
    if text != "" {
      SmallFile(text[1..]);
    }
  }
}
