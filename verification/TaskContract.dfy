// core/task_contract.py: which of a task's declared dependencies are done.
module TaskContract {
  import opened Bytes
  import opened Text

  // `fields` are the card, item, issue and URL references of a task.
  datatype Task = Task(
    taskKey: string, taskId: string, sourceRef: string, fields: seq<string>, state: string, status: string)

  type Lower = string -> string

  // Stripped and lower-cased.
  function Normalized(lower: Lower, s: string): string {
    lower(Strip(s))
  }

  function ColonsToSlashes(s: string): string {
    seq(|s|, i requires 0 <= i < |s| => if s[i] == ':' then '/' else s[i])
  }

  predicate IsDone(lower: Lower, task: Task) {
    Normalized(lower, if task.state != "" then task.state else task.status) in {"done", "completed"}
  }

  // The state decides, and the status only where there is no state.
  lemma IsDoneIs(lower: Lower, task: Task)
    ensures IsDone(lower, task) <==>
      lower(Strip(if task.state == "" then task.status else task.state)) in {"done", "completed"}
  {
  }

  // _task_reference_tokens() before cleaning
  function RawTokens(lower: Lower, task: Task): set<string> {
    var key := Normalized(lower, task.taskKey);
    {key, ColonsToSlashes(key), Normalized(lower, task.taskId), Normalized(lower, task.sourceRef)}
    + set f | f in task.fields :: Normalized(lower, f)
  }

  // The token itself, and without one leading hash.
  function Cleaned(raw: string): set<string> {
    var token := Strip(raw);
    if token == "" then {}
    else if token[0] == '#' && |token| > 1 then {token, token[1..]}
    else {token}
  }

  function Tokens(lower: Lower, task: Task): set<string> {
    set raw, token | raw in RawTokens(lower, task) && token in Cleaned(raw) :: token
  }

  // What a task can be referred to by: its key, also with slashes for its colons,
  // its id, its source and its references, stripped, in lower case, and each of
  // them also without one leading hash.
  lemma TokensAre(lower: Lower, task: Task, token: string)
    ensures token in Tokens(lower, task) <==>
      && token != ""
      && exists raw :: (token == Strip(raw) || Strip(raw) == "#" + token) && RawToken(lower, task, raw)
  {
    forall raw
      ensures raw in RawTokens(lower, task) <==> RawToken(lower, task, raw)
      ensures token in Cleaned(raw) <==> token != "" && (token == Strip(raw) || Strip(raw) == "#" + token)
    {
      RawTokenIs(lower, task, raw);
      CleanedIs(raw, token);
    }
    if token in Tokens(lower, task) {
      var raw :| raw in RawTokens(lower, task) && token in Cleaned(raw);
      assert RawToken(lower, task, raw);
    }
  }

  ghost predicate RawToken(lower: Lower, task: Task, raw: string) {
    || raw in [lower(Strip(task.taskKey)), lower(Strip(task.taskId)), lower(Strip(task.sourceRef))]
    || (exists f :: f in task.fields && raw == lower(Strip(f)))
    || (var key := lower(Strip(task.taskKey));
        |raw| == |key| && forall i :: 0 <= i < |key| ==> raw[i] == if key[i] == ':' then '/' else key[i])
  }

  lemma RawTokenIs(lower: Lower, task: Task, raw: string)
    ensures raw in RawTokens(lower, task) <==> RawToken(lower, task, raw)
  {
    var key := lower(Strip(task.taskKey));
    assert raw == ColonsToSlashes(key) <==>
      |raw| == |key| && forall i :: 0 <= i < |key| ==> raw[i] == if key[i] == ':' then '/' else key[i];
  }

  lemma CleanedIs(raw: string, token: string)
    ensures token in Cleaned(raw) <==> token != "" && (token == Strip(raw) || Strip(raw) == "#" + token)
  {
    var s := Strip(raw);
    if s != "" {
      assert s == [s[0]] + s[1..];
      assert s == "#" + token ==> s[1..] == token;
    }
  }

  function TrimHashes(s: string): string {
    if s != "" && s[0] == '#' then TrimHashes(s[1..]) else s
  }

  // _normalize_dependency_token()
  function DependencyToken(lower: Lower, s: string): string {
    TrimHashes(Normalized(lower, s))
  }

  // All leading hashes of a dependency are dropped, so "#" and "##" come to nothing.
  lemma {:induction false} DependencyTokenIs(lower: Lower, s: string) returns (hashes: string)
    ensures lower(Strip(s)) == hashes + DependencyToken(lower, s) && forall c :: c in hashes ==> c == '#'
    ensures DependencyToken(lower, s) != "" ==> DependencyToken(lower, s)[0] != '#'
  {
    hashes := HashesOf(lower(Strip(s)));
  }

  lemma {:induction false} HashesOf(s: string) returns (hashes: string)
    ensures s == hashes + TrimHashes(s) && forall c :: c in hashes ==> c == '#'
    ensures TrimHashes(s) != "" ==> TrimHashes(s)[0] != '#'
  {
    hashes := "";
    if s != "" && s[0] == '#' {
      hashes := HashesOf(s[1..]);
      hashes := "#" + hashes;
    }
  }

  // The naive definition: some token of a known task is this one.
  predicate References(lower: Lower, task: Task, token: string) {
    exists t :: t in Tokens(lower, task) && DependencyToken(lower, t) == token
  }

  predicate DoneFor(lower: Lower, task: Task, dependency: string) {
    References(lower, task, DependencyToken(lower, dependency)) && IsDone(lower, task)
  }

  // A task settles a dependency iff it is done and can be referred to by it.
  lemma DoneForIs(lower: Lower, task: Task, dependency: string)
    ensures DoneFor(lower, task, dependency) <==>
      && lower(Strip(if task.state == "" then task.status else task.state)) in {"done", "completed"}
      && exists t :: t in Tokens(lower, task) && DependencyToken(lower, t) == DependencyToken(lower, dependency)
  {
    IsDoneIs(lower, task);
  }

  function FirstWhere<T>(items: seq<T>, p: T -> bool): Option<nat> {
    if items == [] then None
    else
      var last := |items| - 1;
      var before := FirstWhere(items[..last], p);
      if before.None? && p(items[last]) then Some(last) else before
  }

  // It is the least index.
  lemma {:induction false} FirstWhereIs<T>(items: seq<T>, p: T -> bool)
    ensures var first := FirstWhere(items, p);
      && (first.None? <==> forall k | 0 <= k < |items| :: !p(items[k]))
      && (first.Some? ==>
            first.value < |items| && p(items[first.value]) && forall k | 0 <= k < first.value :: !p(items[k]))
  {
    if items != [] {
      FirstWhereIs(items[..|items| - 1], p);
    }
  }

  // The scan: the first known task that is done and referred to.
  function FirstDone(lower: Lower, known: seq<Task>, dependency: string): Option<nat> {
    FirstWhere(known, task => DoneFor(lower, task, dependency))
  }

  // The status that the report shows, with the state standing in for a missing
  // one: the other way round than what IsDone looks at.
  function ShownStatus(task: Task): string {
    if task.status != "" then task.status else task.state
  }

  // The tokens of a task that are this one once normalised.
  function Hits(lower: Lower, task: Task, token: string): set<string> {
    Among(lower, Tokens(lower, task), token)
  }

  function Among(lower: Lower, tokens: set<string>, token: string): set<string> {
    set t | t in tokens && DependencyToken(lower, t) == token
  }

  function Repeat(k: nat, n: nat): seq<nat> {
    seq(n, i => k)
  }

  // The matches of a token: each task, in order, once for each of its hits.
  function MatchList<T>(hits: T -> nat, items: seq<T>): seq<nat> {
    if items == [] then []
    else
      var last := |items| - 1;
      MatchList(hits, items[..last]) + Repeat(last, hits(items[last]))
  }

  function HitCount(lower: Lower, token: string): Task -> nat {
    task => |Hits(lower, task, token)|
  }

  function Matches(lower: Lower, known: seq<Task>, dependency: string): seq<nat> {
    MatchList(HitCount(lower, DependencyToken(lower, dependency)), known)
  }

  datatype Resolution = Resolution(dependency: string, taskKey: string, taskId: string, status: string)

  datatype Reason = NotDone | Missing

  datatype Blocker = Blocker(
    dependency: string, taskKeys: seq<string>, taskIds: seq<string>, statuses: seq<string>, reason: Reason)

  // One field of each match, where it is not empty.
  function Collected(f: Task -> string, known: seq<Task>, matches: seq<nat>): seq<string> {
    if matches == [] then []
    else
      var last := |matches| - 1;
      Collected(f, known, matches[..last])
      + if matches[last] < |known| && f(known[matches[last]]) != "" then [f(known[matches[last]])] else []
  }

  function ResolutionOf(lower: Lower, task: Task, dependency: string): Resolution {
    Resolution(dependency, task.taskKey, task.taskId, Normalized(lower, ShownStatus(task)))
  }

  // The statuses are normalised after the empty ones are left out.
  function BlockerOf(lower: Lower, known: seq<Task>, matches: seq<nat>, dependency: string): Blocker {
    var statuses := Collected(task => ShownStatus(task), known, matches);
    Blocker(dependency,
      Collected((task: Task) => task.taskKey, known, matches),
      Collected((task: Task) => task.taskId, known, matches),
      seq(|statuses|, i requires 0 <= i < |statuses| => Normalized(lower, statuses[i])),
      if matches == [] then Missing else NotDone)
  }

  // What a scan of all known tasks says of one dependency.
  function ScanResolved(lower: Lower, known: seq<Task>, dependency: string): Option<Resolution> {
    var k := FirstDone(lower, known, dependency);
    if k.Some? && k.value < |known| then Some(ResolutionOf(lower, known[k.value], dependency)) else None
  }

  function ScanBlocked(lower: Lower, known: seq<Task>, dependency: string): Blocker {
    BlockerOf(lower, known, Matches(lower, known, dependency), dependency)
  }

  function ResolvedBy(find: string -> Option<Resolution>, declared: seq<string>): seq<Resolution> {
    if declared == [] then []
    else
      var d := declared[|declared| - 1];
      ResolvedBy(find, declared[..|declared| - 1]) + if find(d).Some? then [find(d).value] else []
  }

  function BlockedBy(
    find: string -> Option<Resolution>, blocker: string -> Blocker, declared: seq<string>): seq<Blocker> {
    if declared == [] then []
    else
      var d := declared[|declared| - 1];
      BlockedBy(find, blocker, declared[..|declared| - 1]) + if find(d).None? then [blocker(d)] else []
  }

  function Resolved(lower: Lower, known: seq<Task>, declared: seq<string>): seq<Resolution> {
    ResolvedBy(d => ScanResolved(lower, known, d), declared)
  }

  function Unresolved(lower: Lower, known: seq<Task>, declared: seq<string>): seq<Blocker> {
    BlockedBy(d => ScanResolved(lower, known, d), d => ScanBlocked(lower, known, d), declared)
  }

  // ---- The token index ----

  // For each token the indices of the tasks that refer to it.
  type Lookup = map<string, seq<nat>>

  // The tasks entered under a token, none when it is unknown.
  function Find(lookup: Lookup, token: string): seq<nat> {
    if token in lookup then lookup[token] else []
  }

  ghost predicate Indexes(lower: Lower, lookup: Lookup, known: seq<Task>) {
    forall token :: Find(lookup, token) == MatchList(HitCount(lower, token), known)
  }

  // The indices of exactly the items that refer, in order.
  ghost predicate Complete<T>(matches: seq<nat>, items: seq<T>, refers: T -> bool) {
    && (forall i, j | 0 <= i < j < |matches| :: matches[i] <= matches[j])
    && forall k: nat :: k in matches <==> k < |items| && refers(items[k])
  }

  method BuildLookup(lower: Lower, known: seq<Task>) returns (lookup: Lookup)
    ensures Indexes(lower, lookup, known)
  {
    lookup := map[];
    var k := 0;
    while k < |known|
      invariant 0 <= k <= |known|
      invariant Indexes(lower, lookup, known[..k])
    {
      ghost var before := lookup;
      lookup := EnterTask(lower, lookup, known[k], k);
      IndexesOneMore(lower, before, lookup, known, k);
      k := k + 1;
    }
    assert known[..k] == known;
  }

  // Entering a task appends it once for every token.
  method EnterTask(lower: Lower, start: Lookup, task: Task, k: nat) returns (lookup: Lookup)
    ensures forall token :: Find(lookup, token) == Find(start, token) + Repeat(k, |Hits(lower, task, token)|)
  {
    lookup := EnterTokens(lower, start, Tokens(lower, task), k);
  }

  // The loop over the tokens, in whatever order.
  method EnterTokens(lower: Lower, start: Lookup, tokens: set<string>, k: nat) returns (lookup: Lookup)
    ensures Entered(lower, start, lookup, tokens, k)
  {
    lookup := start;
    var todo := tokens;
    ghost var entered := {};
    EnteredNone(lower, start, k);
    while todo != {}
      invariant entered + todo == tokens && entered !! todo
      invariant Entered(lower, start, lookup, entered, k)
      decreases todo
    {
      ghost var previous := lookup;
      var raw :| raw in todo;
      var token := DependencyToken(lower, raw);
      lookup := lookup[token := Find(lookup, token) + [k]];
      EnterOne(lower, start, previous, lookup, entered, raw, k);
      todo, entered := todo - {raw}, entered + {raw};
    }
    assert entered == tokens;
  }

  // Index k has been entered for these tokens.
  ghost predicate Entered(lower: Lower, start: Lookup, lookup: Lookup, entered: set<string>, k: nat) {
    forall token :: Find(lookup, token) == Find(start, token) + Repeat(k, |Among(lower, entered, token)|)
  }

  lemma EnteredNone(lower: Lower, start: Lookup, k: nat)
    ensures Entered(lower, start, start, {}, k)
  {
    assert forall token :: Among(lower, {}, token) == {};
  }

  lemma EnterOne(
    lower: Lower, start: Lookup, previous: Lookup, lookup: Lookup, entered: set<string>, raw: string, k: nat)
    requires raw !in entered && Entered(lower, start, previous, entered, k)
    requires var token := DependencyToken(lower, raw); lookup == previous[token := Find(previous, token) + [k]]
    ensures Entered(lower, start, lookup, entered + {raw}, k)
  {
    forall token
      ensures Find(lookup, token) == Find(start, token) + Repeat(k, |Among(lower, entered + {raw}, token)|)
    {
      OneMoreHit(lower, previous, lookup, entered, raw, token, k);
      RepeatMore(Find(start, token), k, |Among(lower, entered, token)|);
    }
  }

  lemma RepeatMore(s: seq<nat>, k: nat, n: nat)
    ensures s + Repeat(k, n) + [k] == s + Repeat(k, n + 1)
    ensures s + Repeat(k, n) + [] == s + Repeat(k, n)
  {
  }

  lemma OneMoreHit(
    lower: Lower, previous: Lookup, lookup: Lookup, entered: set<string>, raw: string, t: string, k: nat)
    requires raw !in entered
    requires var token := DependencyToken(lower, raw); lookup == previous[token := Find(previous, token) + [k]]
    ensures |Among(lower, entered + {raw}, t)|
      == |Among(lower, entered, t)| + if t == DependencyToken(lower, raw) then 1 else 0
    ensures Find(lookup, t) == Find(previous, t) + if t == DependencyToken(lower, raw) then [k] else []
  {
    if t == DependencyToken(lower, raw) {
      assert Among(lower, entered + {raw}, t) == Among(lower, entered, t) + {raw};
    } else {
      assert Among(lower, entered + {raw}, t) == Among(lower, entered, t);
    }
  }

  lemma IndexesOneMore(lower: Lower, before: Lookup, after: Lookup, known: seq<Task>, k: nat)
    requires k < |known| && Indexes(lower, before, known[..k])
    requires forall token :: Find(after, token) == Find(before, token) + Repeat(k, |Hits(lower, known[k], token)|)
    ensures Indexes(lower, after, known[..k + 1])
  {
    assert known[..k + 1][..k] == known[..k];
  }

  // A token's matches are exactly the tasks that refer to it.
  lemma {:induction false} MatchListComplete<T(!new)>(hits: T -> nat, refers: T -> bool, items: seq<T>)
    requires forall x :: refers(x) == (hits(x) > 0)
    ensures Complete(MatchList(hits, items), items, refers)
  {
    if items != [] {
      var last := |items| - 1;
      MatchListComplete(hits, refers, items[..last]);
      MatchesGrow(MatchList(hits, items[..last]), items, hits(items[last]), refers);
    }
  }

  lemma MatchesGrow<T>(before: seq<nat>, items: seq<T>, n: nat, refers: T -> bool)
    requires items != [] && Complete(before, items[..|items| - 1], refers)
    requires refers(items[|items| - 1]) == (n > 0)
    ensures Complete(before + Repeat(|items| - 1, n), items, refers)
  {
    var last := |items| - 1;
    var after := before + Repeat(last, n);
    forall k: nat
      ensures k in after <==> k < |items| && refers(items[k])
    {
      assert k in Repeat(last, n) <==> k == last && n > 0 by {
        if n > 0 {
          assert Repeat(last, n)[0] == last;
        }
      }
      assert k < last ==> items[..last][k] == items[k];
    }
    forall i, j | 0 <= i < j < |after|
      ensures after[i] <= after[j]
    {
      assert i < |before| ==> after[i] == before[i] && before[i] in before;
      assert j < |before| ==> after[j] == before[j];
    }
  }

  function Refer(lower: Lower, dependency: string): Task -> bool {
    task => References(lower, task, DependencyToken(lower, dependency))
  }

  lemma MatchesComplete(lower: Lower, known: seq<Task>, dependency: string)
    ensures Complete(Matches(lower, known, dependency), known, Refer(lower, dependency))
  {
    var token := DependencyToken(lower, dependency);
    forall task: Task
      ensures References(lower, task, token) == (|Hits(lower, task, token)| > 0)
    {
      HitsRefer(lower, task, token);
    }
    MatchListComplete(HitCount(lower, token), Refer(lower, dependency), known);
  }

  lemma HitsRefer(lower: Lower, task: Task, token: string)
    ensures References(lower, task, token) <==> |Hits(lower, task, token)| > 0
  {
    if References(lower, task, token) {
      var t :| t in Tokens(lower, task) && DependencyToken(lower, t) == token;
      assert t in Hits(lower, task, token);
    } else {
      assert Hits(lower, task, token) == {};
    }
  }

  // dependency_status_for_task(), for known tasks: through the index, the same
  // answer as a scan of all known tasks for each dependency.
  method DependencyStatus(lower: Lower, declared: seq<string>, known: seq<Task>)
    returns (resolved: seq<Resolution>, unresolved: seq<Blocker>, blocked: bool)
    ensures resolved == Resolved(lower, known, declared)
    ensures unresolved == Unresolved(lower, known, declared)
    ensures blocked <==> exists d :: d in declared && forall task :: task in known ==> !DoneFor(lower, task, d)
  {
    ghost var find := d => ScanResolved(lower, known, d);
    ghost var blocker := d => ScanBlocked(lower, known, d);
    var lookup := BuildLookup(lower, known);
    resolved, unresolved := [], [];
    var i := 0;
    while i < |declared|
      invariant 0 <= i <= |declared|
      invariant resolved == ResolvedBy(find, declared[..i])
      invariant unresolved == BlockedBy(find, blocker, declared[..i])
    {
      var dependency := declared[i];
      assert declared[..i + 1][..i] == declared[..i];
      var matches := Find(lookup, DependencyToken(lower, dependency));
      assert matches == Matches(lower, known, dependency);
      var done := FirstDoneMatch(lower, known, dependency, matches);
      if done.Some? {
        resolved := resolved + [done.value];
      } else {
        unresolved := unresolved + [BlockerOf(lower, known, matches, dependency)];
      }
      i := i + 1;
    }
    assert declared[..i] == declared;
    blocked := unresolved != [];
    BlockedIff(lower, known, declared);
  }

  // The first done task among the matches.
  method FirstDoneMatch(lower: Lower, known: seq<Task>, dependency: string, matches: seq<nat>)
    returns (done: Option<Resolution>)
    requires matches == Matches(lower, known, dependency)
    ensures done == ScanResolved(lower, known, dependency)
  {
    ghost var refers, p := Refer(lower, dependency), task => DoneFor(lower, task, dependency);
    var isDone := (task: Task) => IsDone(lower, task);
    MatchesComplete(lower, known, dependency);
    var k := FirstAmong(known, matches, isDone, refers, p);
    done := if k.Some? then Some(ResolutionOf(lower, known[k.value], dependency)) else None;
  }

  method FirstAmong<T(!new)>(
    items: seq<T>, matches: seq<nat>, done: T -> bool, ghost refers: T -> bool, ghost both: T -> bool)
    returns (k: Option<nat>)
    requires Complete(matches, items, refers) && forall x :: both(x) == (refers(x) && done(x))
    ensures k == FirstWhere(items, both) && (k.Some? ==> k.value < |items|)
  {
    var j := 0;
    while j < |matches|
      invariant 0 <= j <= |matches|
      invariant forall i | 0 <= i < j :: matches[i] < |items| && !done(items[matches[i]])
    {
      assert matches[j] in matches;
      if done(items[matches[j]]) {
        FirstOfMatches(items, refers, done, both, matches, j);
        return Some(matches[j]);
      }
      j := j + 1;
    }
    FirstOfMatches(items, refers, done, both, matches, j);
    return None;
  }

  // The first done one among the matches is the first of all.
  lemma FirstOfMatches<T(!new)>(
    items: seq<T>, refers: T -> bool, done: T -> bool, both: T -> bool, matches: seq<nat>, j: nat)
    requires Complete(matches, items, refers) && forall x :: both(x) == (refers(x) && done(x))
    requires j <= |matches| && forall i | 0 <= i < j :: matches[i] < |items| && !done(items[matches[i]])
    requires j < |matches| ==> matches[j] < |items| && done(items[matches[j]])
    ensures FirstWhere(items, both) == if j < |matches| then Some(matches[j]) else None
  {
    forall k: nat | k < if j < |matches| then matches[j] else |items|
      ensures !both(items[k])
    {
      NotBefore(items, refers, done, matches, j, k);
    }
    if j < |matches| {
      assert matches[j] in matches;
      FirstIs(items, both, matches[j]);
    } else {
      FirstWhereIs(items, both);
    }
  }

  lemma FirstIs<T>(items: seq<T>, p: T -> bool, k: nat)
    requires k < |items| && p(items[k]) && forall i | 0 <= i < k :: !p(items[i])
    ensures FirstWhere(items, p) == Some(k)
  {
    FirstWhereIs(items, p);
  }

  lemma NotBefore<T>(items: seq<T>, refers: T -> bool, done: T -> bool, matches: seq<nat>, j: nat, k: nat)
    requires Complete(matches, items, refers)
    requires j <= |matches| && forall i | 0 <= i < j :: matches[i] < |items| && !done(items[matches[i]])
    requires k < |items| && (j < |matches| ==> k < matches[j])
    ensures !(refers(items[k]) && done(items[k]))
  {
    if refers(items[k]) {
      assert k in matches;
      var i :| 0 <= i < |matches| && matches[i] == k;
    }
  }

  // Blocked exactly when some declared dependency has no done task referring to it.
  lemma BlockedIff(lower: Lower, known: seq<Task>, declared: seq<string>)
    ensures Unresolved(lower, known, declared) != [] <==>
      exists d :: d in declared && forall task :: task in known ==> !DoneFor(lower, task, d)
  {
    SomeBlocked(d => ScanResolved(lower, known, d), d => ScanBlocked(lower, known, d), declared);
    forall d {
      NoneDone(lower, known, d);
    }
  }

  lemma NoneDone(lower: Lower, known: seq<Task>, d: string)
    ensures FirstDone(lower, known, d).None? <==> forall task :: task in known ==> !DoneFor(lower, task, d)
    ensures ScanResolved(lower, known, d).None? <==> FirstDone(lower, known, d).None?
  {
    FirstWhereIs(known, task => DoneFor(lower, task, d));
    if FirstDone(lower, known, d).Some? {
      assert known[FirstDone(lower, known, d).value] in known;
    }
  }

  lemma {:induction false} SomeBlocked(
    find: string -> Option<Resolution>, blocker: string -> Blocker, declared: seq<string>)
    ensures BlockedBy(find, blocker, declared) != [] <==> exists d :: d in declared && find(d).None?
  {
    if declared != [] {
      var last := |declared| - 1;
      SomeBlocked(find, blocker, declared[..last]);
      assert declared == declared[..last] + [declared[last]];
    }
  }

  function Filtered(p: string -> bool, items: seq<string>): seq<string> {
    if items == [] then []
    else
      var last := |items| - 1;
      Filtered(p, items[..last]) + if p(items[last]) then [items[last]] else []
  }

  function DependenciesOf(resolved: seq<Resolution>): seq<string> {
    seq(|resolved|, i requires 0 <= i < |resolved| => resolved[i].dependency)
  }

  function BlockersOf(unresolved: seq<Blocker>): seq<string> {
    seq(|unresolved|, i requires 0 <= i < |unresolved| => unresolved[i].dependency)
  }

  // The two lists share out the declared dependencies, each in declared order.
  lemma StatusPartitions(lower: Lower, known: seq<Task>, declared: seq<string>)
    ensures var done := (d => ScanResolved(lower, known, d).Some?);
      var open := (d => ScanResolved(lower, known, d).None?);
      && DependenciesOf(Resolved(lower, known, declared)) == Filtered(done, declared)
      && BlockersOf(Unresolved(lower, known, declared)) == Filtered(open, declared)
      && multiset(declared) == multiset(Filtered(done, declared)) + multiset(Filtered(open, declared))
  {
    var find, blocker := d => ScanResolved(lower, known, d), d => ScanBlocked(lower, known, d);
    var done, open := d => ScanResolved(lower, known, d).Some?, d => ScanResolved(lower, known, d).None?;
    ResolvedAre(find, done, declared);
    BlockedAre(find, blocker, open, declared);
    FilteredShare(done, open, declared);
  }

  lemma {:induction false} ResolvedAre(find: string -> Option<Resolution>, done: string -> bool, declared: seq<string>)
    requires forall d :: done(d) == find(d).Some? && (find(d).Some? ==> find(d).value.dependency == d)
    ensures DependenciesOf(ResolvedBy(find, declared)) == Filtered(done, declared)
  {
    if declared != [] {
      ResolvedAre(find, done, declared[..|declared| - 1]);
    }
  }

  lemma {:induction false} BlockedAre(
    find: string -> Option<Resolution>, blocker: string -> Blocker, open: string -> bool, declared: seq<string>)
    requires forall d :: open(d) == find(d).None? && blocker(d).dependency == d
    ensures BlockersOf(BlockedBy(find, blocker, declared)) == Filtered(open, declared)
  {
    if declared != [] {
      BlockedAre(find, blocker, open, declared[..|declared| - 1]);
    }
  }

  // The report is about the right tasks: a resolution shows the first done task
  // that refers to the dependency; a blocker is Missing exactly when no task
  // refers to it, and shows the keys of just those tasks that do.
  lemma ReportIsAbout(lower: Lower, known: seq<Task>, dependency: string, key: string)
    ensures var r := ScanResolved(lower, known, dependency);
      r.Some? ==>
        var k := FirstDone(lower, known, dependency).value;
        && k < |known| && DoneFor(lower, known[k], dependency)
        && r.value == Resolution(dependency, known[k].taskKey, known[k].taskId,
                                 lower(Strip(if known[k].status == "" then known[k].state else known[k].status)))
    ensures var blocker := ScanBlocked(lower, known, dependency);
      && (blocker.reason == Missing <==> forall task :: task in known ==> !Refer(lower, dependency)(task))
      && blocker.reason in {Missing, NotDone} && blocker.dependency == dependency
      && (key in blocker.taskKeys <==>
            key != "" && exists task :: task in known && task.taskKey == key && Refer(lower, dependency)(task))
  {
    var matches := Matches(lower, known, dependency);
    MatchesComplete(lower, known, dependency);
    FirstWhereIs(known, task => DoneFor(lower, task, dependency));
    NoMatches(known, matches, Refer(lower, dependency));
    CollectedAre((task: Task) => task.taskKey, known, matches, key);
    KeyedMatch(known, matches, Refer(lower, dependency), key);
  }

  lemma NoMatches(known: seq<Task>, matches: seq<nat>, refers: Task -> bool)
    requires Complete(matches, known, refers)
    ensures matches == [] <==> forall task :: task in known ==> !refers(task)
  {
    if matches != [] {
      assert matches[0] in matches && known[matches[0]] in known;
    }
    if task :| task in known && refers(task) {
      var k :| 0 <= k < |known| && known[k] == task;
      assert k in matches;
    }
  }

  lemma {:induction false} CollectedAre(f: Task -> string, known: seq<Task>, matches: seq<nat>, text: string)
    ensures text in Collected(f, known, matches) <==>
      text != "" && exists i :: 0 <= i < |matches| && matches[i] < |known| && f(known[matches[i]]) == text
  {
    if matches != [] {
      CollectedAre(f, known, matches[..|matches| - 1], text);
    }
  }

  // A blocker's lists go through its matches in order; what is empty is left out,
  // and the statuses are normalised after that.
  lemma BlockerIs(lower: Lower, known: seq<Task>, matches: seq<nat>, k: nat, dependency: string)
    requires k < |known|
    ensures var before, after := BlockerOf(lower, known, matches, dependency),
                                 BlockerOf(lower, known, matches + [k], dependency);
      var key, id, status := known[k].taskKey, known[k].taskId, known[k].status;
      var shown := if status == "" then known[k].state else status;
      && after.taskKeys == before.taskKeys + (if key == "" then [] else [key])
      && after.taskIds == before.taskIds + (if id == "" then [] else [id])
      && after.statuses == before.statuses + (if shown == "" then [] else [lower(Strip(shown))])
      && after.reason == NotDone
    ensures BlockerOf(lower, known, [], dependency) == Blocker(dependency, [], [], [], Missing)
  {
    assert (matches + [k])[..|matches|] == matches;
    CollectedMore((task: Task) => task.taskKey, known, matches, k);
    CollectedMore((task: Task) => task.taskId, known, matches, k);
    CollectedMore(task => ShownStatus(task), known, matches, k);
  }

  lemma CollectedMore(f: Task -> string, known: seq<Task>, matches: seq<nat>, k: nat)
    requires k < |known|
    ensures Collected(f, known, matches + [k])
      == Collected(f, known, matches) + if f(known[k]) == "" then [] else [f(known[k])]
  {
    assert (matches + [k])[..|matches|] == matches;
  }

  lemma KeyedMatch(known: seq<Task>, matches: seq<nat>, refers: Task -> bool, key: string)
    requires Complete(matches, known, refers)
    ensures (exists i :: 0 <= i < |matches| && matches[i] < |known| && known[matches[i]].taskKey == key)
      <==> exists task :: task in known && task.taskKey == key && refers(task)
  {
    if i :| 0 <= i < |matches| && matches[i] < |known| && known[matches[i]].taskKey == key {
      assert matches[i] in matches && known[matches[i]] in known;
    }
    if task :| task in known && task.taskKey == key && refers(task) {
      var k :| 0 <= k < |known| && known[k] == task;
      assert k in matches;
      var i :| 0 <= i < |matches| && matches[i] == k;
    }
  }

  lemma {:induction false} FilteredShare(p: string -> bool, q: string -> bool, items: seq<string>)
    requires forall d :: p(d) != q(d)
    ensures multiset(items) == multiset(Filtered(p, items)) + multiset(Filtered(q, items))
  {
    if items != [] {
      var last := |items| - 1;
      var before, d := items[..last], items[last];
      FilteredShare(p, q, before);
      assert items == before + [d];
      FilteredLast(p, items);
      FilteredLast(q, items);
      ShareOne(before, d, Filtered(p, before), Filtered(q, before));
    }
  }

  lemma FilteredLast(p: string -> bool, items: seq<string>)
    requires items != []
    ensures var d, before := items[|items| - 1], Filtered(p, items[..|items| - 1]);
      Filtered(p, items) == if p(d) then before + [d] else before
  {
  }

  lemma ShareOne(items: seq<string>, d: string, f: seq<string>, g: seq<string>)
    requires multiset(items) == multiset(f) + multiset(g)
    ensures multiset(items + [d]) == multiset(f + [d]) + multiset(g) == multiset(f) + multiset(g + [d])
  {
  }

  // Knowing more tasks, in any order, never blocks a dependency that was resolved.
  lemma MoreKnownNeverBlocks(lower: Lower, known: seq<Task>, more: seq<Task>, dependency: string)
    requires forall task :: task in known ==> task in more
    ensures FirstDone(lower, known, dependency).Some? ==> FirstDone(lower, more, dependency).Some?
  {
    NoneDone(lower, known, dependency);
    NoneDone(lower, more, dependency);
  }
}
