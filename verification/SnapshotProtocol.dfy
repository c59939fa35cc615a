/**
 * Validating a batch of manifests from one immutable revision.
 *
 * The branch head may move at any time. The batch reads the head once, pins the
 * revision, lets concurrent readers fetch content through a cache that coalesces
 * requests for the same path, and reads the head again before it answers. The
 * protocol is a state machine whose steps interleave freely.
 */
module SnapshotProtocol {
  import opened Wrappers

  // ----- The world -----

  type Revision = string

  /** What a reader receives for a content request. */
  datatype Answer = Content(bytes: seq<int>) | ClientError(detail: string) | ScopeMismatch | InvalidPath

  /** A content request as the reader writes it. */
  datatype Ask = Ask(repoRef: string, ref: string, path: string)

  datatype Read = Read(ask: Ask, answer: Answer)

  /** How one validation ends. `SourceError` covers the errors that the batch reports per source. */
  datatype Outcome = Validated(response: string) | SourceError(detail: string) | Unexpected(detail: string)

  datatype Action = Request(ask: Ask) | Done(outcome: Outcome)

  /**
   * `content` is the underlying client at a revision, which is immutable, when the
   * call does not fail; `normalize` is `normalize_manifest_path`; `next` is what
   * the validation of the `i`-th request does after what it has read.
   */
  datatype Batch = Batch(
    repoRef: string,
    branch: string,
    expected: Revision,
    ids: seq<string>,
    missing: map<string, string>,
    content: (Revision, string) -> Answer,
    normalize: string -> Option<string>,
    next: (nat, seq<Read>) -> Action)

  // ----- Reading without concurrency -----

  /** The answers to the paths fetched so far. */
  type Answers = map<string, Answer>

  /** Every answer is the content at the expected revision, or a failure of the call. */
  ghost predicate Genuine(b: Batch, answers: Answers) {
    forall p :: p in answers ==> answers[p] == b.content(b.expected, p) || answers[p].ClientError?
  }

  /** What a content request is answered with; `None` while its path has no answer. */
  function Reply(b: Batch, answers: Answers, ask: Ask): Option<Answer> {
    if ask.repoRef != b.repoRef || (ask.ref != b.branch && ask.ref != b.expected) then Some(ScopeMismatch)
    else
      var p := b.normalize(ask.path);
      if p.None? then Some(InvalidPath)
      else if p.value in answers then Some(answers[p.value]) else None
  }

  /** A history of the `i`-th validation in which every path is answered as in `answers`. */
  ghost predicate Faithful(b: Batch, answers: Answers, i: nat, history: seq<Read>) {
    forall k :: 0 <= k < |history| ==>
      && b.next(i, history[..k]) == Request(history[k].ask)
      && Reply(b, answers, history[k].ask) == Some(history[k].answer)
  }

  /** The `i`-th validation, run alone against these answers, ends with `outcome`. */
  ghost predicate Evaluates(b: Batch, answers: Answers, i: nat, outcome: Outcome) {
    exists history :: Faithful(b, answers, i, history) && b.next(i, history) == Done(outcome)
  }

  /** The two give the same answer to every path that both answer. */
  predicate Agree(a: Answers, a': Answers) {
    forall p :: p in a && p in a' ==> a[p] == a'[p]
  }

  /** Two faithful histories agree as far as both go. */
  lemma {:induction false} FaithfulPrefix(b: Batch, a: Answers, a': Answers, i: nat, h: seq<Read>, h': seq<Read>, n: nat)
    requires Agree(a, a') && Faithful(b, a, i, h) && Faithful(b, a', i, h') && n <= |h| && n <= |h'|
    ensures h[..n] == h'[..n]
  {
    if n > 0 {
      FaithfulPrefix(b, a, a', i, h, h', n - 1);
      assert b.next(i, h[..n - 1]) == Request(h[n - 1].ask);
      assert b.next(i, h'[..n - 1]) == Request(h'[n - 1].ask);
      assert h[..n] == h[..n - 1] + [h[n - 1]] && h'[..n] == h'[..n - 1] + [h'[n - 1]];
    }
  }

  lemma FinishedIsNotLonger(b: Batch, a: Answers, a': Answers, i: nat, h: seq<Read>, h': seq<Read>, o: Outcome)
    requires Agree(a, a') && Faithful(b, a, i, h) && Faithful(b, a', i, h') && b.next(i, h) == Done(o)
    ensures |h'| <= |h|
  {
    assert h[..|h|] == h;
    if |h'| > |h| {
      FaithfulPrefix(b, a, a', i, h, h', |h|);
      assert false;
    }
  }

  /** A validation has one outcome for one set of answers. */
  lemma EvaluatesIsFunctional(b: Batch, a: Answers, a': Answers, i: nat, o: Outcome, o': Outcome)
    requires Agree(a, a') && Evaluates(b, a, i, o) && Evaluates(b, a', i, o')
    ensures o == o'
  {
    var h :| Faithful(b, a, i, h) && b.next(i, h) == Done(o);
    var h' :| Faithful(b, a', i, h') && b.next(i, h') == Done(o');
    FinishedIsNotLonger(b, a, a', i, h, h', o);
    FinishedIsNotLonger(b, a', a, i, h', h, o');
    FaithfulPrefix(b, a, a', i, h, h', |h|);
    assert h[..|h|] == h && h'[..|h|] == h';
  }

  /** More answers do not change a history. */
  lemma FaithfulGrows(b: Batch, a: Answers, a': Answers, i: nat, h: seq<Read>)
    requires Faithful(b, a, i, h) && a.Keys <= a'.Keys && Agree(a, a')
    ensures Faithful(b, a', i, h)
  {
    forall k | 0 <= k < |h|
      ensures b.next(i, h[..k]) == Request(h[k].ask) && Reply(b, a', h[k].ask) == Some(h[k].answer)
    {
      assert Reply(b, a, h[k].ask) == Some(h[k].answer);
    }
  }

  // ----- Assembling the answer -----

  datatype Result =
    | RevisionConflict
    | ChangedDuringBatch
    | UnexpectedError(detail: string)
    | BatchErrors(errors: map<string, string>)
    | Validations(revision: Revision, responses: seq<string>)

  predicate AllValidated(outcomes: seq<Outcome>) {
    forall i :: 0 <= i < |outcomes| ==> outcomes[i].Validated?
  }

  predicate SomeUnexpected(outcomes: seq<Outcome>) {
    exists i :: 0 <= i < |outcomes| && outcomes[i].Unexpected?
  }

  /** `detail` is that of the first outcome that was not expected. */
  ghost predicate FirstUnexpected(outcomes: seq<Outcome>, detail: string) {
    exists i :: 0 <= i < |outcomes| && outcomes[i] == Unexpected(detail) && forall k :: 0 <= k < i ==> !outcomes[k].Unexpected?
  }

  /** Of the first `n` outcomes, the i-th is the last error reported under its identity. */
  predicate IsLastError(b: Batch, outcomes: seq<Outcome>, n: nat, i: nat)
    requires n <= |outcomes| == |b.ids|
  {
    && i < n && outcomes[i].SourceError?
    && forall k :: i < k < n && outcomes[k].SourceError? ==> b.ids[k] != b.ids[i]
  }

  /** The missing sources and those of the first `n` that failed, each with the last error reported for it. */
  ghost predicate ErrorsOf(b: Batch, outcomes: seq<Outcome>, n: nat, errors: map<string, string>)
    requires n <= |outcomes| == |b.ids|
  {
    && (forall i: nat :: IsLastError(b, outcomes, n, i) ==> b.ids[i] in errors && errors[b.ids[i]] == outcomes[i].detail)
    && (forall id :: id in b.missing ==> id in errors)
    && (forall id :: id in errors ==>
          || (exists i: nat :: IsLastError(b, outcomes, n, i) && b.ids[i] == id)
          || (id in b.missing && errors[id] == b.missing[id]))
  }

  /** A later error replaces the one reported under its identity before. */
  lemma OneMoreError(b: Batch, outcomes: seq<Outcome>, n: nat, errors: map<string, string>)
    requires n < |outcomes| == |b.ids| && ErrorsOf(b, outcomes, n, errors) && outcomes[n].SourceError?
    ensures ErrorsOf(b, outcomes, n + 1, errors[b.ids[n] := outcomes[n].detail])
  {
    var errors' := errors[b.ids[n] := outcomes[n].detail];
    assert IsLastError(b, outcomes, n + 1, n);
    forall i: nat | IsLastError(b, outcomes, n + 1, i)
      ensures b.ids[i] in errors' && errors'[b.ids[i]] == outcomes[i].detail
    {
      assert i < n ==> IsLastError(b, outcomes, n, i);
    }
    forall id | id in errors' && id != b.ids[n]
      ensures (exists i: nat :: IsLastError(b, outcomes, n + 1, i) && b.ids[i] == id) || (id in b.missing && errors'[id] == b.missing[id])
    {
      if i: nat :| IsLastError(b, outcomes, n, i) && b.ids[i] == id {
        assert IsLastError(b, outcomes, n + 1, i);
      }
    }
  }

  lemma NoMoreError(b: Batch, outcomes: seq<Outcome>, n: nat, errors: map<string, string>)
    requires n < |outcomes| == |b.ids| && ErrorsOf(b, outcomes, n, errors) && !outcomes[n].SourceError?
    ensures ErrorsOf(b, outcomes, n + 1, errors)
  {
    assert forall i: nat :: IsLastError(b, outcomes, n + 1, i) <==> IsLastError(b, outcomes, n, i);
  }

  /** What assembling may answer: all responses in order, or an error and no response at all. */
  ghost predicate Assembled(b: Batch, outcomes: seq<Outcome>, r: Result) {
    match r
    case UnexpectedError(detail) => FirstUnexpected(outcomes, detail)
    case BatchErrors(errors) =>
      && !SomeUnexpected(outcomes) && !(AllValidated(outcomes) && b.missing == map[])
      && |b.ids| == |outcomes| && ErrorsOf(b, outcomes, |outcomes|, errors)
    case Validations(revision, responses) =>
      && revision == b.expected && b.missing == map[] && |responses| == |outcomes|
      && forall i :: 0 <= i < |outcomes| ==> outcomes[i] == Validated(responses[i])
    case _ => false
  }

  /** The three variables of the final loop after the first `n` outcomes. */
  function Errors(b: Batch, outcomes: seq<Outcome>, n: nat): map<string, string>
    requires n <= |outcomes| == |b.ids|
  {
    if n == 0 then b.missing
    else
      var before := Errors(b, outcomes, n - 1);
      if outcomes[n - 1].SourceError? then before[b.ids[n - 1] := outcomes[n - 1].detail] else before
  }

  function Responses(outcomes: seq<Outcome>): seq<string> {
    if outcomes == [] then []
    else
      var last := outcomes[|outcomes| - 1];
      Responses(outcomes[..|outcomes| - 1]) + if last.Validated? then [last.response] else []
  }

  function UnexpectedOf(outcomes: seq<Outcome>): Option<string> {
    if outcomes == [] then None
    else
      var before, last := UnexpectedOf(outcomes[..|outcomes| - 1]), outcomes[|outcomes| - 1];
      if before.None? && last.Unexpected? then Some(last.detail) else before
  }

  lemma {:induction false} ErrorsAreReported(b: Batch, outcomes: seq<Outcome>, n: nat)
    requires n <= |outcomes| == |b.ids|
    ensures ErrorsOf(b, outcomes, n, Errors(b, outcomes, n))
  {
    if n > 0 {
      ErrorsAreReported(b, outcomes, n - 1);
      if outcomes[n - 1].SourceError? {
        OneMoreError(b, outcomes, n - 1, Errors(b, outcomes, n - 1));
      } else {
        NoMoreError(b, outcomes, n - 1, Errors(b, outcomes, n - 1));
      }
    }
  }

  lemma {:induction false} NoErrorsIff(b: Batch, outcomes: seq<Outcome>, n: nat)
    requires n <= |outcomes| == |b.ids|
    ensures Errors(b, outcomes, n) == map[] <==> b.missing == map[] && forall k :: 0 <= k < n ==> !outcomes[k].SourceError?
  {
    if n > 0 {
      NoErrorsIff(b, outcomes, n - 1);
      if outcomes[n - 1].SourceError? {
        assert b.ids[n - 1] in Errors(b, outcomes, n);
      }
    }
  }

  lemma {:induction false} ResponsesAreAll(outcomes: seq<Outcome>)
    requires AllValidated(outcomes)
    ensures |Responses(outcomes)| == |outcomes|
    ensures forall i :: 0 <= i < |outcomes| ==> outcomes[i] == Validated(Responses(outcomes)[i])
  {
    if outcomes != [] {
      ResponsesAreAll(outcomes[..|outcomes| - 1]);
    }
  }

  lemma {:induction false} UnexpectedIsFirst(outcomes: seq<Outcome>)
    ensures UnexpectedOf(outcomes).Some? <==> SomeUnexpected(outcomes)
    ensures UnexpectedOf(outcomes).Some? ==> FirstUnexpected(outcomes, UnexpectedOf(outcomes).value)
  {
    if outcomes != [] {
      var n := |outcomes| - 1;
      var init := outcomes[..n];
      UnexpectedIsFirst(init);
      assert forall k :: 0 <= k < n ==> init[k] == outcomes[k];
      if UnexpectedOf(init).Some? {
        var i :| 0 <= i < n && init[i] == Unexpected(UnexpectedOf(init).value) && forall k :: 0 <= k < i ==> !init[k].Unexpected?;
        assert outcomes[i] == init[i];
      } else if outcomes[n].Unexpected? {
        assert outcomes[n] == Unexpected(UnexpectedOf(outcomes).value);
      }
    }
  }

  /** The final loop of `validate_manifests_at_revision`. */
  method Assemble(b: Batch, outcomes: seq<Outcome>) returns (r: Result)
    requires |outcomes| == |b.ids|
    ensures Assembled(b, outcomes, r)
    ensures r.Validations? <==> AllValidated(outcomes) && b.missing == map[]
    ensures r.UnexpectedError? <==> SomeUnexpected(outcomes)
  {
    var responses: seq<string> := [];
    var errors := b.missing;
    var unexpected: Option<string> := None;
    for i := 0 to |outcomes|
      invariant responses == Responses(outcomes[..i])
      invariant errors == Errors(b, outcomes, i)
      invariant unexpected == UnexpectedOf(outcomes[..i])
    {
      assert outcomes[..i + 1][..i] == outcomes[..i];
      match outcomes[i]
      case Validated(response) =>
        responses := responses + [response];
      case SourceError(detail) =>
        errors := errors[b.ids[i] := detail];
      case Unexpected(detail) =>
        if unexpected.None? {
          unexpected := Some(detail);
        }
    }
    assert outcomes[..|outcomes|] == outcomes;
    UnexpectedIsFirst(outcomes);
    ErrorsAreReported(b, outcomes, |outcomes|);
    NoErrorsIff(b, outcomes, |outcomes|);
    if unexpected.Some? {
      return UnexpectedError(unexpected.value);
    }
    if errors != map[] {
      return BatchErrors(errors);
    }
    ResponsesAreAll(outcomes);
    return Validations(b.expected, responses);
  }

  // ----- The state machine -----

  datatype Task = Running | Finished(answer: Answer)

  datatype Reader = Reader(history: seq<Read>, waiting: Option<string>, outcome: Option<Outcome>)

  datatype Phase = Idle | Reading | Answered(result: Result)

  /** `tasks` is the cache of the snapshot client; `fetches` logs the calls to the underlying client. */
  datatype State = State(
    head: Revision,
    phase: Phase,
    revision: Revision,
    tasks: map<string, Task>,
    fetches: seq<(Revision, string)>,
    readers: seq<Reader>)

  datatype Step =
    | MoveHead(to: Revision)
    | Observe
    | Call(i: nat)
    | Complete(path: string, answer: Answer)
    | Deliver(i: nat)
    | Conclude(i: nat)
    | Confirm(result: Result)

  function Fresh(n: nat): seq<Reader> {
    seq(n, _ => Reader([], None, None))
  }

  predicate Active(s: State, i: nat) {
    s.phase.Reading? && i < |s.readers| && s.readers[i].outcome.None?
  }

  /** The reader's next action while it waits for nothing. */
  function Wants(b: Batch, s: State, i: nat): Action
    requires i < |s.readers|
  {
    b.next(i, s.readers[i].history)
  }

  /** The content request of a reader, up to awaiting the coalesced task. */
  function Requested(b: Batch, s: State, i: nat, ask: Ask): State
    requires i < |s.readers|
  {
    var reader := s.readers[i];
    var answered := (answer: Answer) => s.(readers := s.readers[i := reader.(history := reader.history + [Read(ask, answer)])]);
    if ask.repoRef != b.repoRef || (ask.ref != b.branch && ask.ref != s.revision) then answered(ScopeMismatch)
    else if b.normalize(ask.path).None? then answered(InvalidPath)
    else
      var p := b.normalize(ask.path).value;
      var waiting := s.(readers := s.readers[i := reader.(waiting := Some(p))]);
      if p in s.tasks then waiting
      else waiting.(tasks := s.tasks[p := Running], fetches := s.fetches + [(s.revision, p)])
  }

  ghost predicate Assembles(b: Batch, s: State, result: Result) {
    && (forall i :: 0 <= i < |s.readers| ==> s.readers[i].outcome.Some?)
    && Assembled(b, seq(|s.readers|, i requires 0 <= i < |s.readers| && s.readers[i].outcome.Some? => s.readers[i].outcome.value), result)
  }

  /** `s'` is a possible state after taking `step` in `s`. */
  ghost predicate Next(b: Batch, s: State, step: Step, s': State) {
    match step
    case MoveHead(to) => s' == s.(head := to)
    case Observe =>
      s.phase.Idle? &&
      if s.head != b.expected then s' == s.(phase := Answered(RevisionConflict))
      else s' == s.(phase := Reading, revision := s.head, readers := Fresh(|b.ids|))
    case Call(i) =>
      && Active(s, i) && s.readers[i].waiting.None? && Wants(b, s, i).Request?
      && s' == Requested(b, s, i, Wants(b, s, i).ask)
    case Complete(p, answer) =>
      && p in s.tasks && s.tasks[p].Running? && (answer == b.content(s.revision, p) || answer.ClientError?)
      && s' == s.(tasks := s.tasks[p := Finished(answer)])
    case Deliver(i) =>
      && Active(s, i) && s.readers[i].waiting.Some? && Wants(b, s, i).Request?
      && s.readers[i].waiting.value in s.tasks && s.tasks[s.readers[i].waiting.value].Finished?
      && var answer := s.tasks[s.readers[i].waiting.value].answer;
         s' == s.(readers := s.readers[i := Reader(s.readers[i].history + [Read(Wants(b, s, i).ask, answer)], None, None)])
    case Conclude(i) =>
      && Active(s, i) && s.readers[i].waiting.None? && Wants(b, s, i).Done?
      && s' == s.(readers := s.readers[i := s.readers[i].(outcome := Some(Wants(b, s, i).outcome))])
    case Confirm(result) =>
      && s.phase.Reading? && (forall i :: 0 <= i < |s.readers| ==> s.readers[i].outcome.Some?)
      && if s.head != s.revision then s' == s.(phase := Answered(ChangedDuringBatch))
         else Assembles(b, s, result) && s' == s.(phase := Answered(result))
  }

  ghost predicate Initial(s: State) {
    s.phase.Idle? && s.tasks == map[] && s.fetches == [] && s.readers == []
  }

  // ----- The invariant -----

  /** The answers in the cache. */
  function Cached(tasks: map<string, Task>): Answers {
    map p | p in tasks && tasks[p].Finished? :: tasks[p].answer
  }

  ghost predicate ReaderInvariant(b: Batch, i: nat, reader: Reader, tasks: map<string, Task>) {
    && Faithful(b, Cached(tasks), i, reader.history)
    && (reader.outcome.Some? ==> reader.waiting.None? && b.next(i, reader.history) == Done(reader.outcome.value))
    && (reader.waiting.Some? ==>
          && reader.waiting.value in tasks
          && b.next(i, reader.history).Request?
          && var ask := b.next(i, reader.history).ask;
             && ask.repoRef == b.repoRef && (ask.ref == b.branch || ask.ref == b.expected)
             && b.normalize(ask.path) == reader.waiting)
  }

  predicate NoRepeats(fetches: seq<(Revision, string)>) {
    forall k, l :: 0 <= k < l < |fetches| ==> fetches[k].1 != fetches[l].1
  }

  ghost predicate CacheInvariant(b: Batch, s: State) {
    && Genuine(b, Cached(s.tasks))
    && (forall k :: 0 <= k < |s.fetches| ==> s.fetches[k].0 == b.expected && s.fetches[k].1 in s.tasks)
    && NoRepeats(s.fetches)
  }

  ghost predicate Invariant(b: Batch, s: State) {
    && (s.phase.Idle? ==> s.tasks == map[] && s.fetches == [] && s.readers == [])
    && (s.readers != [] || s.tasks != map[] ==> s.revision == b.expected)
    && (s.phase.Reading? ==> s.revision == b.expected && |s.readers| == |b.ids|)
    && CacheInvariant(b, s)
    && (forall i :: 0 <= i < |s.readers| ==> ReaderInvariant(b, i, s.readers[i], s.tasks))
    && (s.phase.Answered? && s.phase.result.Validations? ==> SoundBatch(b, Cached(s.tasks), s.phase.result))
  }

  /** A returned batch holds one response per request, each computed from the same answers alone. */
  ghost predicate SoundBatch(b: Batch, answers: Answers, r: Result)
    requires r.Validations?
  {
    && r.revision == b.expected
    && |r.responses| == |b.ids| && b.missing == map[]
    && Genuine(b, answers)
    && forall i :: 0 <= i < |r.responses| ==> Evaluates(b, answers, i, Validated(r.responses[i]))
  }

  lemma FaithfulExtended(b: Batch, answers: Answers, i: nat, history: seq<Read>, read: Read)
    requires Faithful(b, answers, i, history) && b.next(i, history) == Request(read.ask)
    requires Reply(b, answers, read.ask) == Some(read.answer)
    ensures Faithful(b, answers, i, history + [read])
  {
    var longer := history + [read];
    forall k | 0 <= k < |longer|
      ensures b.next(i, longer[..k]) == Request(longer[k].ask) && Reply(b, answers, longer[k].ask) == Some(longer[k].answer)
    {
      if k < |history| {
        assert longer[..k] == history[..k] && longer[k] == history[k];
      } else {
        assert longer[..k] == history;
      }
    }
  }

  lemma CallKeepsInvariant(b: Batch, s: State, i: nat, s': State)
    requires Invariant(b, s) && Next(b, s, Call(i), s')
    ensures Invariant(b, s')
  {
    var reader, ask := s.readers[i], Wants(b, s, i).ask;
    assert Cached(s'.tasks) == Cached(s.tasks);
    if s'.readers[i].waiting.None? {
      FaithfulExtended(b, Cached(s.tasks), i, reader.history, s'.readers[i].history[|reader.history|]);
      assert s'.readers[i].history == reader.history + [s'.readers[i].history[|reader.history|]];
    }
  }

  lemma CompleteKeepsInvariant(b: Batch, s: State, p: string, answer: Answer, s': State)
    requires Invariant(b, s) && Next(b, s, Complete(p, answer), s')
    ensures Invariant(b, s')
  {
    assert s'.tasks.Keys == s.tasks.Keys;
    var a, a' := Cached(s.tasks), Cached(s'.tasks);
    assert a' == a[p := answer] && p !in a;
    forall i | 0 <= i < |s.readers|
      ensures ReaderInvariant(b, i, s.readers[i], s'.tasks)
    {
      assert ReaderInvariant(b, i, s.readers[i], s.tasks);
      FaithfulGrows(b, a, a', i, s.readers[i].history);
    }
    if s.phase.Answered? && s.phase.result.Validations? {
      SoundBatchGrows(b, a, a', s.phase.result);
    }
  }

  lemma SoundBatchGrows(b: Batch, a: Answers, a': Answers, r: Result)
    requires r.Validations? && SoundBatch(b, a, r) && a.Keys <= a'.Keys && Agree(a, a') && Genuine(b, a')
    ensures SoundBatch(b, a', r)
  {
    forall i | 0 <= i < |r.responses|
      ensures Evaluates(b, a', i, Validated(r.responses[i]))
    {
      var h :| Faithful(b, a, i, h) && b.next(i, h) == Done(Validated(r.responses[i]));
      FaithfulGrows(b, a, a', i, h);
    }
  }

  lemma DeliverKeepsInvariant(b: Batch, s: State, i: nat, s': State)
    requires Invariant(b, s) && Next(b, s, Deliver(i), s')
    ensures Invariant(b, s')
  {
    var reader := s.readers[i];
    FaithfulExtended(b, Cached(s.tasks), i, reader.history, Read(Wants(b, s, i).ask, s.tasks[reader.waiting.value].answer));
  }

  lemma ConfirmKeepsInvariant(b: Batch, s: State, result: Result, s': State)
    requires Invariant(b, s) && Next(b, s, Confirm(result), s')
    ensures Invariant(b, s')
  {
    if s.head == s.revision && result.Validations? {
      forall i | 0 <= i < |result.responses|
        ensures Evaluates(b, Cached(s.tasks), i, Validated(result.responses[i]))
      {
        assert ReaderInvariant(b, i, s.readers[i], s.tasks);
      }
    }
  }

  lemma StepKeepsInvariant(b: Batch, s: State, step: Step, s': State)
    requires Invariant(b, s) && Next(b, s, step, s')
    ensures Invariant(b, s')
  {
    match step
    case MoveHead(_) =>
    case Observe =>
    case Call(i) => CallKeepsInvariant(b, s, i, s');
    case Complete(p, answer) => CompleteKeepsInvariant(b, s, p, answer, s');
    case Deliver(i) => DeliverKeepsInvariant(b, s, i, s');
    case Conclude(_) =>
    case Confirm(result) => ConfirmKeepsInvariant(b, s, result, s');
  }

  // ----- Whole runs -----

  ghost predicate IsRun(b: Batch, states: seq<State>, steps: seq<Step>) {
    && |states| == |steps| + 1 && Initial(states[0])
    && forall k :: 0 <= k < |steps| ==> Next(b, states[k], steps[k], states[k + 1])
  }

  lemma {:induction false} RunKeepsInvariant(b: Batch, states: seq<State>, steps: seq<Step>, n: nat)
    requires IsRun(b, states, steps) && n < |states|
    ensures Invariant(b, states[n])
  {
    if n > 0 {
      RunKeepsInvariant(b, states, steps, n - 1);
      StepKeepsInvariant(b, states[n - 1], steps[n - 1], states[n]);
    }
  }

  /**
   * In every interleaving of readers, failing calls and head moves: the underlying
   * client is only asked for the expected revision, for each normalized path at
   * most once, and a returned batch is complete, each response computed from one
   * shared answer per path.
   */
  lemma SnapshotIsSafe(b: Batch, states: seq<State>, steps: seq<Step>, n: nat)
    requires IsRun(b, states, steps) && n < |states|
    ensures forall k :: 0 <= k < |states[n].fetches| ==> states[n].fetches[k].0 == b.expected
    ensures NoRepeats(states[n].fetches)
    ensures states[n].phase.Answered? && states[n].phase.result.Validations? ==>
      SoundBatch(b, Cached(states[n].tasks), states[n].phase.result)
  {
    RunKeepsInvariant(b, states, steps, n);
  }

  // ----- The head of the branch -----

  /** The answer that the validation gives on what it read, as opposed to a conflict of revisions. */
  predicate IsAssembled(r: Result) {
    !r.RevisionConflict? && !r.ChangedDuringBatch?
  }

  /** Some step before the n-th state read the head of the branch and found the expected revision. */
  ghost predicate Observed(b: Batch, states: seq<State>, steps: seq<Step>, n: nat)
    requires |states| == |steps| + 1 && n < |states|
  {
    exists j :: 0 <= j < n && steps[j].Observe? && states[j].head == b.expected
  }

  /** A batch is being read only after the head was found at the expected revision. */
  lemma {:induction false} ReadingWasObserved(b: Batch, states: seq<State>, steps: seq<Step>, n: nat)
    requires IsRun(b, states, steps) && n < |states| && states[n].phase.Reading?
    ensures Observed(b, states, steps, n)
  {
    assert n > 0;
    assert Next(b, states[n - 1], steps[n - 1], states[n]);
    if states[n - 1].phase.Reading? {
      ReadingWasObserved(b, states, steps, n - 1);
    }
  }

  /**
   * A run answers with validations, or with errors of the sources, only in a step that
   * finds the head at the expected revision, after an earlier step found it there.
   */
  lemma AnsweredAtExpectedHead(b: Batch, states: seq<State>, steps: seq<Step>, k: nat)
    requires IsRun(b, states, steps) && k < |steps|
    requires !states[k].phase.Answered? && states[k + 1].phase.Answered? && IsAssembled(states[k + 1].phase.result)
    ensures states[k].head == b.expected && Observed(b, states, steps, k)
  {
    assert Next(b, states[k], steps[k], states[k + 1]);
    RunKeepsInvariant(b, states, steps, k);
    ReadingWasObserved(b, states, steps, k);
  }

  /** No answer is given on what was read before every source of the batch has been validated. */
  lemma AnsweredAfterAll(b: Batch, states: seq<State>, steps: seq<Step>, k: nat)
    requires IsRun(b, states, steps) && k < |steps|
    requires !states[k].phase.Answered? && states[k + 1].phase.Answered? && !states[k + 1].phase.result.RevisionConflict?
    ensures |states[k].readers| == |b.ids| && forall i :: 0 <= i < |b.ids| ==> states[k].readers[i].outcome.Some?
  {
    assert Next(b, states[k], steps[k], states[k + 1]);
    RunKeepsInvariant(b, states, steps, k);
  }

  // ----- A run can always go on -----

  /** The outcomes of a batch whose readers are done. */
  function Outcomes(s: State): seq<Outcome>
    requires forall i :: 0 <= i < |s.readers| ==> s.readers[i].outcome.Some?
  {
    seq(|s.readers|, i requires 0 <= i < |s.readers| && s.readers[i].outcome.Some? => s.readers[i].outcome.value)
  }

  /** Some answer can always be assembled. */
  lemma SomeAnswer(b: Batch, outcomes: seq<Outcome>) returns (r: Result)
    requires |outcomes| == |b.ids|
    ensures Assembled(b, outcomes, r)
  {
    UnexpectedIsFirst(outcomes);
    ErrorsAreReported(b, outcomes, |outcomes|);
    NoErrorsIff(b, outcomes, |outcomes|);
    if UnexpectedOf(outcomes).Some? {
      r := UnexpectedError(UnexpectedOf(outcomes).value);
    } else if Errors(b, outcomes, |outcomes|) != map[] {
      r := BatchErrors(Errors(b, outcomes, |outcomes|));
    } else {
      assert AllValidated(outcomes);
      ResponsesAreAll(outcomes);
      r := Validations(b.expected, Responses(outcomes));
    }
  }

  /** A running call can end with the content at the pinned revision, and with every failure of the client. */
  lemma CallMayEnd(b: Batch, states: seq<State>, steps: seq<Step>, n: nat, p: string, detail: string)
    requires IsRun(b, states, steps) && n < |states| && p in states[n].tasks && states[n].tasks[p].Running?
    ensures exists s' :: Next(b, states[n], Complete(p, b.content(b.expected, p)), s')
    ensures exists s' :: Next(b, states[n], Complete(p, ClientError(detail)), s')
  {
    RunKeepsInvariant(b, states, steps, n);
    var s := states[n];
    assert Next(b, s, Complete(p, b.content(b.expected, p)), s.(tasks := s.tasks[p := Finished(b.content(b.expected, p))]));
    assert Next(b, s, Complete(p, ClientError(detail)), s.(tasks := s.tasks[p := Finished(ClientError(detail))]));
  }

  /** A reader that is not done can take a step, or the call it waits for can end. */
  lemma ReaderCanGoOn(b: Batch, s: State, i: nat) returns (step: Step, s': State)
    requires Invariant(b, s) && Active(s, i)
    ensures Next(b, s, step, s') && !step.MoveHead?
  {
    var reader := s.readers[i];
    assert ReaderInvariant(b, i, reader, s.tasks);
    if reader.waiting.None? {
      if Wants(b, s, i).Request? {
        step, s' := Call(i), Requested(b, s, i, Wants(b, s, i).ask);
      } else {
        step, s' := Conclude(i), s.(readers := s.readers[i := reader.(outcome := Some(Wants(b, s, i).outcome))]);
      }
    } else {
      var p := reader.waiting.value;
      if s.tasks[p].Running? {
        var answer := b.content(s.revision, p);
        step, s' := Complete(p, answer), s.(tasks := s.tasks[p := Finished(answer)]);
      } else {
        var read := Read(Wants(b, s, i).ask, s.tasks[p].answer);
        step, s' := Deliver(i), s.(readers := s.readers[i := Reader(reader.history + [read], None, None)]);
      }
    }
  }

  /** In every state of every run that has not answered some step of the batch is possible: it never gets stuck. */
  lemma NeverStuck(b: Batch, states: seq<State>, steps: seq<Step>, n: nat)
    requires IsRun(b, states, steps) && n < |states| && !states[n].phase.Answered?
    ensures exists step, s' :: Next(b, states[n], step, s') && !step.MoveHead?
  {
    RunKeepsInvariant(b, states, steps, n);
    var s := states[n];
    if s.phase.Idle? {
      var s' := if s.head != b.expected then s.(phase := Answered(RevisionConflict))
                else s.(phase := Reading, revision := s.head, readers := Fresh(|b.ids|));
      assert Next(b, s, Observe, s');
    } else if i :| 0 <= i < |s.readers| && s.readers[i].outcome.None? {
      var step, s' := ReaderCanGoOn(b, s, i);
    } else {
      var r := SomeAnswer(b, Outcomes(s));
      assert Assembles(b, s, r);
      var s' := s.(phase := Answered(if s.head != s.revision then ChangedDuringBatch else r));
      assert Next(b, s, Confirm(r), s');
    }
  }

  /** A head that has moved when the batch is done is reported, whatever the readers found. */
  lemma MovedHeadIsReported(b: Batch, states: seq<State>, steps: seq<Step>, k: nat)
    requires IsRun(b, states, steps) && k < |steps| && steps[k].Confirm?
    ensures states[k + 1].phase == Answered(ChangedDuringBatch) <==> states[k].head != b.expected
  {
    assert Next(b, states[k], steps[k], states[k + 1]);
    RunKeepsInvariant(b, states, steps, k);
  }

  /** An answer is never taken back, and nothing is fetched after it. */
  lemma {:induction false} AnswerIsFinal(b: Batch, states: seq<State>, steps: seq<Step>, k: nat, n: nat)
    requires IsRun(b, states, steps) && k <= n < |states| && states[k].phase.Answered?
    ensures states[n].phase == states[k].phase && states[n].fetches == states[k].fetches
  {
    if k < n {
      AnswerIsFinal(b, states, steps, k, n - 1);
      assert Next(b, states[n - 1], steps[n - 1], states[n]);
    }
  }

  /** A head that is not the expected one at the beginning is a conflict, and the run never fetches anything. */
  lemma OtherHeadIsConflict(b: Batch, states: seq<State>, steps: seq<Step>, k: nat, n: nat)
    requires IsRun(b, states, steps) && k < n < |states| && steps[k].Observe?
    ensures states[k + 1].phase == Answered(RevisionConflict) <==> states[k].head != b.expected
    ensures states[k].head != b.expected ==> states[n].phase == Answered(RevisionConflict) && states[n].fetches == []
  {
    assert Next(b, states[k], steps[k], states[k + 1]);
    RunKeepsInvariant(b, states, steps, k);
    if states[k].head != b.expected {
      AnswerIsFinal(b, states, steps, k + 1, n);
    }
  }

  /** Two runs that return a batch return the same batch, however they interleave, when no path was answered differently. */
  lemma BatchesAgree(
    b: Batch, states: seq<State>, steps: seq<Step>, states': seq<State>, steps': seq<Step>, n: nat, m: nat)
    requires IsRun(b, states, steps) && n < |states| && IsRun(b, states', steps') && m < |states'|
    requires states[n].phase.Answered? && states[n].phase.result.Validations?
    requires states'[m].phase.Answered? && states'[m].phase.result.Validations?
    requires Agree(Cached(states[n].tasks), Cached(states'[m].tasks))
    ensures states[n].phase.result == states'[m].phase.result
  {
    SnapshotIsSafe(b, states, steps, n);
    SnapshotIsSafe(b, states', steps', m);
    var r, r' := states[n].phase.result, states'[m].phase.result;
    forall i | 0 <= i < |b.ids|
      ensures r.responses[i] == r'.responses[i]
    {
      EvaluatesIsFunctional(b, Cached(states[n].tasks), Cached(states'[m].tasks), i,
                            Validated(r.responses[i]), Validated(r'.responses[i]));
    }
  }

  /** No call to the underlying client failed that would not fail every time. */
  ghost predicate NoFailures(b: Batch, answers: Answers) {
    forall p :: p in answers ==> answers[p] == b.content(b.expected, p)
  }

  /** Without failing calls the batch is a function of the expected revision. */
  lemma BatchIsDetermined(
    b: Batch, states: seq<State>, steps: seq<Step>, states': seq<State>, steps': seq<Step>, n: nat, m: nat)
    requires IsRun(b, states, steps) && n < |states| && IsRun(b, states', steps') && m < |states'|
    requires states[n].phase.Answered? && states[n].phase.result.Validations? && NoFailures(b, Cached(states[n].tasks))
    requires states'[m].phase.Answered? && states'[m].phase.result.Validations? && NoFailures(b, Cached(states'[m].tasks))
    ensures states[n].phase.result == states'[m].phase.result
  {
    BatchesAgree(b, states, steps, states', steps', n, m);
  }
}
