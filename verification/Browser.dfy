/** Browser contexts behind a permit semaphore, and the request handlers of each context that
    share its budgets. Callers and handlers interleave at every await. */
module Browser {
  import opened Text

  datatype Limits = Limits(permits: nat, requests: nat, images: nat, totalBytes: nat)

  // ---- The two locked sections of a handler ----

  datatype Budget = Budget(requestCount: nat, imageCount: nat, bytes: nat, blocked: nat)

  const FRESH := Budget(0, 0, 0, 0)

  /** Counting a request in; images are counted and limited first. */
  function Admit(b: Budget, image: bool, l: Limits): (Budget, bool) {
    var counted := if image then b.(imageCount := b.imageCount + 1) else b;
    if image && counted.imageCount > l.images then (counted.(blocked := counted.blocked + 1), false)
    else
      var next := counted.(requestCount := counted.requestCount + 1);
      if next.requestCount > l.requests then (next.(blocked := next.blocked + 1), false) else (next, true)
  }

  /** Adding a fetched body; one that would pass the total is dropped. */
  function AddBody(b: Budget, size: nat, l: Limits): (Budget, bool) {
    if b.bytes + size > l.totalBytes then (b, false) else (b.(bytes := b.bytes + size), true)
  }

  class ManagedContext {
    var requestCount: nat
    var imageCount: nat
    var bytesDownloaded: nat
    var blocked: nat
    const limits: Limits

    ghost function State(): Budget
      reads this
    {
      Budget(requestCount, imageCount, bytesDownloaded, blocked)
    }

    constructor (limits: Limits)
      ensures State() == FRESH && this.limits == limits
    {
      requestCount, imageCount, bytesDownloaded, blocked := 0, 0, 0, 0;
      this.limits := limits;
    }

    method AdmitRequest(image: bool) returns (ok: bool)
      modifies this
      ensures (State(), ok) == Admit(old(State()), image, limits)
    {
      if image {
        imageCount := imageCount + 1;
        if imageCount > limits.images {
          blocked := blocked + 1;
          return false;
        }
      }
      requestCount := requestCount + 1;
      if requestCount > limits.requests {
        blocked := blocked + 1;
        return false;
      }
      return true;
    }

    method AddBytes(size: nat) returns (ok: bool)
      modifies this
      ensures (State(), ok) == AddBody(old(State()), size, limits)
    {
      if bytesDownloaded + size > limits.totalBytes { return false; }
      bytesDownloaded := bytesDownloaded + size;
      return true;
    }
  }

  // ---- The interleaved system ----

  /** Where a handler stands after its checks. */
  datatype Stage = Checked | Admitted | Fetching | Body(size: nat) | Ended

  datatype Handler = Handler(context: nat, image: bool, stage: Stage)

  /** `creating` are callers that hold a permit while their context is being made; `live` the
      contexts not yet closed; `lost` counts permits of callers cancelled while creating.
      `budgets` outlive their context, because a handler may finish after it closed. `admitted`,
      `started`, `imagesStarted` and `handlerBytes` record, per context, what its handlers did. */
  datatype System = System(
    free: nat,
    creating: set<nat>,
    live: set<nat>,
    budgets: map<nat, Budget>,
    lost: nat,
    handlers: map<nat, Handler>,
    admitted: map<nat, set<nat>>,
    imagesAdmitted: map<nat, set<nat>>,
    started: map<nat, set<nat>>,
    imagesStarted: map<nat, set<nat>>,
    handlerBytes: map<nat, nat>)

  datatype Step =
    | Acquire(p: nat)
    | Created(p: nat, id: nat)
    | CreateFailed(p: nat)
    | CreateCancelled(p: nat)
    | Close(id: nat)
    | Request(h: nat, id: nat, image: bool)
    | AdmitStep(h: nat)
    | Fetch(h: nat)
    | Received(h: nat, size: nat)
    | AddStep(h: nat)
    | Abort(h: nat)
    | SourceBytes(id: nat, size: nat)

  function Start(l: Limits): System {
    System(l.permits, {}, {}, map[], 0, map[], map[], map[], map[], map[], map[])
  }

  function AtStage(s: System, h: nat, stage: Stage): map<nat, Handler>
    requires h in s.handlers
  {
    s.handlers[h := s.handlers[h].(stage := stage)]
  }

  predicate Ready(s: System, h: nat, stage: Stage) {
    h in s.handlers && s.handlers[h].stage == stage && Known(s, s.handlers[h].context)
  }

  /** The records exist for every context ever created. */
  predicate Tracked(s: System, id: nat) {
    id in s.admitted && id in s.imagesAdmitted && id in s.started && id in s.imagesStarted && id in s.handlerBytes
  }

  predicate Known(s: System, id: nat) {
    id in s.budgets && Tracked(s, id)
  }

  ghost predicate Next(l: Limits, s: System, step: Step, s': System) {
    match step
    case Acquire(p) =>
      s.free > 0 && p !in s.creating && s' == s.(free := s.free - 1, creating := s.creating + {p})
    case Created(p, id) =>
      p in s.creating && id !in s.budgets && id !in s.live &&
      s' == s.(creating := s.creating - {p}, live := s.live + {id}, budgets := s.budgets[id := FRESH],
               admitted := s.admitted[id := {}], imagesAdmitted := s.imagesAdmitted[id := {}],
               started := s.started[id := {}], imagesStarted := s.imagesStarted[id := {}],
               handlerBytes := s.handlerBytes[id := 0])
    case CreateFailed(p) =>
      p in s.creating && s' == s.(creating := s.creating - {p}, free := s.free + 1)
    case CreateCancelled(p) =>
      p in s.creating && s' == s.(creating := s.creating - {p}, lost := s.lost + 1)
    case Close(id) =>
      id in s.live && s' == s.(live := s.live - {id}, free := s.free + 1)
    case Request(h, id, image) =>
      h !in s.handlers && id in s.live && Known(s, id) &&
      s' == s.(handlers := s.handlers[h := Handler(id, image, Checked)])
    case AdmitStep(h) =>
      Ready(s, h, Checked) &&
      (var c := s.handlers[h].context;
       var image := s.handlers[h].image;
       var r := Admit(s.budgets[c], image, l);
       if r.1 then
         s' == s.(budgets := s.budgets[c := r.0], handlers := AtStage(s, h, Admitted),
                  admitted := s.admitted[c := s.admitted[c] + {h}],
                  imagesAdmitted := if image then s.imagesAdmitted[c := s.imagesAdmitted[c] + {h}]
                                    else s.imagesAdmitted)
       else s' == s.(budgets := s.budgets[c := r.0], handlers := AtStage(s, h, Ended)))
    case Fetch(h) =>
      Ready(s, h, Admitted) &&
      (var c := s.handlers[h].context;
       s' == s.(handlers := AtStage(s, h, Fetching), started := s.started[c := s.started[c] + {h}],
                imagesStarted := if s.handlers[h].image then s.imagesStarted[c := s.imagesStarted[c] + {h}]
                                 else s.imagesStarted))
    case Received(h, size) =>
      Ready(s, h, Fetching) && s' == s.(handlers := AtStage(s, h, Body(size)))
    case AddStep(h) =>
      h in s.handlers && s.handlers[h].stage.Body? && Ready(s, h, s.handlers[h].stage) &&
      (var c := s.handlers[h].context;
       var size := s.handlers[h].stage.size;
       var r := AddBody(s.budgets[c], size, l);
       if r.1 then s' == s.(budgets := s.budgets[c := r.0], handlers := AtStage(s, h, Ended),
                            handlerBytes := s.handlerBytes[c := s.handlerBytes[c] + size])
       else s' == s.(handlers := AtStage(s, h, Ended)))
    case Abort(h) =>
      h in s.handlers && Known(s, s.handlers[h].context) &&
      (var c := s.handlers[h].context;
       s' == s.(handlers := AtStage(s, h, Ended),
                budgets := s.budgets[c := s.budgets[c].(blocked := s.budgets[c].blocked + 1)]))
    case SourceBytes(id, size) =>
      Known(s, id) && s' == s.(budgets := s.budgets[id := s.budgets[id].(bytes := s.budgets[id].bytes + size)])
  }

  ghost predicate IsTrace(l: Limits, ss: seq<System>, steps: seq<Step>) {
    && |ss| == |steps| + 1 && ss[0] == Start(l)
    && forall i :: 0 <= i < |steps| ==> Next(l, ss[i], steps[i], ss[i + 1])
  }

  // ---- Permits ----

  ghost predicate PermitsKept(l: Limits, s: System) {
    s.free + |s.creating| + |s.live| + s.lost == l.permits
  }

  lemma PermitStep(l: Limits, s: System, step: Step, s': System)
    requires PermitsKept(l, s) && Next(l, s, step, s')
    ensures PermitsKept(l, s')
  {
  }

  ghost function Cancellations(steps: seq<Step>): nat {
    if steps == [] then 0
    else (if steps[|steps| - 1].CreateCancelled? then 1 else 0) + Cancellations(steps[..|steps| - 1])
  }

  lemma {:induction false} PermitsAlways(l: Limits, ss: seq<System>, steps: seq<Step>, i: nat)
    requires IsTrace(l, ss, steps) && i < |ss|
    ensures PermitsKept(l, ss[i]) && ss[i].lost == Cancellations(steps[..i])
  {
    if i == 0 {
      assert |ss[0].live| == 0;
    } else {
      var j := i - 1;
      PermitsAlways(l, ss, steps, j);
      assert Next(l, ss[j], steps[j], ss[j + 1]);
      PermitStep(l, ss[j], steps[j], ss[i]);
      assert steps[..i][..i - 1] == steps[..j];
    }
  }

  /** Free permits and contexts, being made or live, add up to the configured number exactly as
      long as no caller was cancelled while its context was being made; creation that fails
      with an error gives its permit back. */
  lemma PermitsConserved(l: Limits, ss: seq<System>, steps: seq<Step>, i: nat)
    requires IsTrace(l, ss, steps) && i < |ss|
    ensures ss[i].free + |ss[i].creating| + |ss[i].live| == l.permits <==> Cancellations(steps[..i]) == 0
  {
    PermitsAlways(l, ss, steps, i);
  }

  lemma {:induction false} CancellationsGrow(steps: seq<Step>, i: nat, j: nat)
    requires i <= j <= |steps|
    ensures Cancellations(steps[..i]) <= Cancellations(steps[..j])
    decreases j - i
  {
    if i < j {
      CancellationsGrow(steps, i, j - 1);
      assert steps[..j][..j - 1] == steps[..j - 1];
    }
  }

  /** A permit of a cancelled creation never comes back: in every continuation the rest is all
      there is. */
  lemma LostForGood(l: Limits, ss: seq<System>, steps: seq<Step>, i: nat, j: nat)
    requires IsTrace(l, ss, steps) && i <= j < |ss|
    ensures ss[j].free + |ss[j].creating| + |ss[j].live| <= l.permits - Cancellations(steps[..i])
  {
    PermitsAlways(l, ss, steps, j);
    CancellationsGrow(steps, i, j);
  }

  /** Once as many creations were cancelled as there are permits, no context is ever made again. */
  lemma NoneLeft(l: Limits, ss: seq<System>, steps: seq<Step>, i: nat, j: nat)
    requires IsTrace(l, ss, steps) && i <= j < |steps|
    requires Cancellations(steps[..i]) == l.permits
    ensures !steps[j].Acquire? && !steps[j].Created?
  {
    LostForGood(l, ss, steps, i, j);
    assert Next(l, ss[j], steps[j], ss[j + 1]);
    assert |ss[j].creating| == 0;
  }

  /** With one permit a single cancelled creation is enough: no permit is left, nothing is being
      made or live, and no step of the system is possible any more. */
  lemma CancelledPermitLost(l: Limits, p: nat) returns (ss: seq<System>, steps: seq<Step>)
    requires l.permits == 1
    ensures IsTrace(l, ss, steps) && steps == [Acquire(p), CreateCancelled(p)]
    ensures ss[2].free + |ss[2].creating| + |ss[2].live| == 0
    ensures forall step, s' :: !Next(l, ss[2], step, s')
  {
    var s0 := Start(l);
    var s1 := s0.(free := 0, creating := {p});
    var s2 := s1.(creating := {}, lost := 1);
    assert s0.creating + {p} == {p} && s1.creating - {p} == {};
    ss, steps := [s0, s1, s2], [Acquire(p), CreateCancelled(p)];
    assert Next(l, s0, steps[0], s1) && Next(l, s1, steps[1], s2);
    forall step, s' ensures !Next(l, s2, step, s') { Stuck(l, s2, step, s'); }
  }

  /** Without permits, contexts, records and handlers there is nothing to do. */
  lemma Stuck(l: Limits, s: System, step: Step, s': System)
    requires s.free == 0 && s.creating == {} && s.live == {} && s.budgets == map[] && s.handlers == map[]
    ensures !Next(l, s, step, s')
  {
  }

  // ---- Budgets ----

  /** Handlers recorded for a context really stand behind that record. */
  ghost predicate BudgetOk(l: Limits, s: System, c: nat) {
    Known(s, c)
    && s.started[c] <= s.admitted[c] && s.imagesStarted[c] <= s.imagesAdmitted[c]
    && |s.admitted[c]| <= l.requests && |s.imagesAdmitted[c]| <= l.images
    && s.handlerBytes[c] <= l.totalBytes
    && (forall h :: h in s.admitted[c] ==> h in s.handlers && !s.handlers[h].stage.Checked?)
    && (forall h :: h in s.imagesAdmitted[c] ==> h in s.handlers && !s.handlers[h].stage.Checked?)
    && (forall h :: h in s.handlers && s.handlers[h].context == c && s.handlers[h].stage.Admitted? ==>
          h in s.admitted[c] && (s.handlers[h].image ==> h in s.imagesAdmitted[c]))
    && |s.admitted[c]| <= s.budgets[c].requestCount && |s.imagesAdmitted[c]| <= s.budgets[c].imageCount
    && s.handlerBytes[c] <= s.budgets[c].bytes
  }

  lemma BudgetStep(l: Limits, s: System, step: Step, s': System, c: nat)
    requires BudgetOk(l, s, c) && Next(l, s, step, s')
    ensures BudgetOk(l, s', c)
  {
    match step
    case AdmitStep(h) => AdmitKeeps(l, s, h, s', c);
    case Fetch(h) => FetchKeeps(l, s, h, s', c);
    case AddStep(h) => AddKeeps(l, s, h, s', c);
    case Received(h, size) => ReceivedKeeps(l, s, h, size, s', c);
    case Abort(h) => AbortKeeps(l, s, h, s', c);
    case _ =>
  }

  lemma AdmitKeeps(l: Limits, s: System, h: nat, s': System, c: nat)
    requires BudgetOk(l, s, c) && Next(l, s, AdmitStep(h), s')
    ensures BudgetOk(l, s', c)
  {
    if s.handlers[h].context != c {
      AdmitElsewhere(l, s, h, s', c);
    } else if Admit(s.budgets[c], s.handlers[h].image, l).1 {
      assert h !in s.admitted[c] && h !in s.imagesAdmitted[c];
    }
  }

  lemma AdmitElsewhere(l: Limits, s: System, h: nat, s': System, c: nat)
    requires BudgetOk(l, s, c) && Next(l, s, AdmitStep(h), s') && s.handlers[h].context != c
    ensures BudgetOk(l, s', c)
  {
  }

  lemma FetchKeeps(l: Limits, s: System, h: nat, s': System, c: nat)
    requires BudgetOk(l, s, c) && Next(l, s, Fetch(h), s')
    ensures BudgetOk(l, s', c)
  {
  }

  lemma AddKeeps(l: Limits, s: System, h: nat, s': System, c: nat)
    requires BudgetOk(l, s, c) && Next(l, s, AddStep(h), s')
    ensures BudgetOk(l, s', c)
  {
  }

  lemma ReceivedKeeps(l: Limits, s: System, h: nat, size: nat, s': System, c: nat)
    requires BudgetOk(l, s, c) && Next(l, s, Received(h, size), s')
    ensures BudgetOk(l, s', c)
  {
  }

  lemma AbortKeeps(l: Limits, s: System, h: nat, s': System, c: nat)
    requires BudgetOk(l, s, c) && Next(l, s, Abort(h), s')
    ensures BudgetOk(l, s', c)
  {
  }

  /** A new context starts with empty records that no earlier handler belongs to. */
  lemma CreatedOk(l: Limits, s: System, p: nat, id: nat, s': System)
    requires Next(l, s, Created(p, id), s')
    requires forall h :: h in s.handlers ==> s.handlers[h].context in s.budgets
    ensures BudgetOk(l, s', id)
  {
  }

  /** Contexts only ever appear by being created. */
  lemma ContextsGrow(l: Limits, s: System, step: Step, s': System)
    requires Next(l, s, step, s')
    ensures s'.budgets.Keys == s.budgets.Keys + (if step.Created? then {step.id} else {})
    ensures forall h :: h in s'.handlers ==>
              (h in s.handlers && s'.handlers[h].context == s.handlers[h].context) ||
              s'.handlers[h].context in s.budgets
  {
  }

  lemma {:induction false} BudgetsAlways(l: Limits, ss: seq<System>, steps: seq<Step>, i: nat)
    requires IsTrace(l, ss, steps) && i < |ss|
    ensures forall h :: h in ss[i].handlers ==> ss[i].handlers[h].context in ss[i].budgets
    ensures forall c :: c in ss[i].budgets ==> BudgetOk(l, ss[i], c)
  {
    if i > 0 {
      var j := i - 1;
      BudgetsAlways(l, ss, steps, j);
      assert Next(l, ss[j], steps[j], ss[j + 1]);
      ContextsGrow(l, ss[j], steps[j], ss[i]);
      forall c | c in ss[i].budgets ensures BudgetOk(l, ss[i], c) {
        if c in ss[j].budgets {
          BudgetStep(l, ss[j], steps[j], ss[i], c);
        } else {
          CreatedOk(l, ss[j], steps[j].p, c, ss[i]);
        }
      }
    }
  }

  /** In every interleaving a context's handlers start at most the allowed number of fetches and
      of image fetches, and add at most the allowed number of bytes. */
  lemma BudgetsRespected(l: Limits, ss: seq<System>, steps: seq<Step>, i: nat, c: nat)
    requires IsTrace(l, ss, steps) && i < |ss| && c in ss[i].budgets
    ensures Tracked(ss[i], c)
    ensures |ss[i].started[c]| <= l.requests
    ensures |ss[i].imagesStarted[c]| <= l.images
    ensures ss[i].handlerBytes[c] <= l.totalBytes
  {
    BudgetsAlways(l, ss, steps, i);
    assert BudgetOk(l, ss[i], c);
    SubsetSize(ss[i].started[c], ss[i].admitted[c]);
    SubsetSize(ss[i].imagesStarted[c], ss[i].imagesAdmitted[c]);
  }
}
