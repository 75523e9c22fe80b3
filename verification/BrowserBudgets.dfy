/** Which requests of a context are admitted, and which bodies are kept, over whole interleavings. */
module BrowserBudgets {
  import opened Text
  import opened Browser

  /** How many of the first i steps asked for a handler of context c to be admitted, by kind. */
  ghost function Asked(ss: seq<System>, steps: seq<Step>, i: nat, c: nat, image: bool): nat
    requires i <= |steps| && |ss| == |steps| + 1
  {
    if i == 0 then 0
    else Asked(ss, steps, i - 1, c, image) + if AsksFor(ss[i - 1], steps[i - 1], c, image) then 1 else 0
  }

  predicate AsksFor(s: System, step: Step, c: nat, image: bool) {
    step.AdmitStep? && step.h in s.handlers && s.handlers[step.h] == Handler(c, image, Checked)
  }

  /** The bytes of source documents of context c in the first i steps. */
  ghost function Sources(steps: seq<Step>, i: nat, c: nat): nat
    requires i <= |steps|
  {
    if i == 0 then 0
    else Sources(steps, i - 1, c) + SourceOf(steps[i - 1], c)
  }

  function Least(a: nat, b: nat): nat { if a < b then a else b }

  /** The counters of a context are what was asked: every image, and every request that is not an
      image beyond the limit. */
  ghost predicate Counted(l: Limits, ss: seq<System>, steps: seq<Step>, i: nat, c: nat)
    requires i <= |steps| && |ss| == |steps| + 1
  {
    var images, others := Asked(ss, steps, i, c, true), Asked(ss, steps, i, c, false);
    if c in ss[i].budgets && c in ss[i].handlerBytes then
      && ss[i].budgets[c].imageCount == images
      && ss[i].budgets[c].requestCount == others + Least(images, l.images)
      && ss[i].budgets[c].bytes == ss[i].handlerBytes[c] + Sources(steps, i, c)
    else images == 0 && others == 0 && Sources(steps, i, c) == 0
  }

  predicate Recorded(s: System, c: nat) { c in s.budgets ==> c in s.handlerBytes }

  function SourceOf(step: Step, c: nat): nat { if step.SourceBytes? && step.id == c then step.size else 0 }

  /** What one step does to the counters of a context that exists. */
  lemma CountersMove(l: Limits, s: System, step: Step, s': System, c: nat)
    requires Next(l, s, step, s') && c in s.budgets && c in s.handlerBytes
    ensures c in s'.budgets && c in s'.handlerBytes
    ensures s'.budgets[c].imageCount == s.budgets[c].imageCount + if AsksFor(s, step, c, true) then 1 else 0
    ensures s'.budgets[c].requestCount == s.budgets[c].requestCount +
              if AsksFor(s, step, c, false) || (AsksFor(s, step, c, true) && s.budgets[c].imageCount < l.images) then 1
              else 0
    ensures s'.budgets[c].bytes - s'.handlerBytes[c] == s.budgets[c].bytes - s.handlerBytes[c] + SourceOf(step, c)
  {
  }

  /** A context that does not exist is not asked for anything, and begins with empty counters. */
  lemma CountersBegin(l: Limits, s: System, step: Step, s': System, c: nat)
    requires Next(l, s, step, s') && c !in s.budgets
    ensures !AsksFor(s, step, c, true) && !AsksFor(s, step, c, false) && SourceOf(step, c) == 0
    ensures c in s'.budgets ==> s'.budgets[c] == FRESH && c in s'.handlerBytes && s'.handlerBytes[c] == 0
  {
  }

  lemma CountedStep(l: Limits, ss: seq<System>, steps: seq<Step>, i: nat, c: nat)
    requires i < |steps| && |ss| == |steps| + 1 && Next(l, ss[i], steps[i], ss[i + 1]) && Counted(l, ss, steps, i, c)
    requires Recorded(ss[i], c)
    ensures Counted(l, ss, steps, i + 1, c) && Recorded(ss[i + 1], c)
  {
    if c in ss[i].budgets {
      CountersMove(l, ss[i], steps[i], ss[i + 1], c);
    } else {
      CountersBegin(l, ss[i], steps[i], ss[i + 1], c);
    }
  }

  lemma {:induction false} CountedAlways(l: Limits, ss: seq<System>, steps: seq<Step>, i: nat, c: nat)
    requires IsTrace(l, ss, steps) && i < |ss|
    ensures Counted(l, ss, steps, i, c) && Recorded(ss[i], c)
  {
    if i == 0 {
      assert ss[0] == Start(l);
    } else {
      var j := i - 1;
      CountedAlways(l, ss, steps, j, c);
      assert Next(l, ss[j], steps[j], ss[j + 1]);
      CountedStep(l, ss, steps, j, c);
    }
  }

  /** In every interleaving a request is let through if and only if, counting what its context asked
      for before, an image is within the image limit and the request within the request limit. */
  lemma AdmittedExactly(l: Limits, ss: seq<System>, steps: seq<Step>, i: nat)
    requires IsTrace(l, ss, steps) && i < |steps| && steps[i].AdmitStep?
    ensures var h := steps[i].h;
            && h in ss[i].handlers && h in ss[i + 1].handlers
            && var c := ss[i].handlers[h].context;
               var images, others := Asked(ss, steps, i, c, true), Asked(ss, steps, i, c, false);
               ss[i + 1].handlers[h].stage ==
                 if (ss[i].handlers[h].image ==> images < l.images) && others + Least(images, l.images) < l.requests
                 then Admitted else Ended
  {
    assert Next(l, ss[i], steps[i], ss[i + 1]);
    CountedAlways(l, ss, steps, i, ss[i].handlers[steps[i].h].context);
  }

  /** A fetched body is kept if and only if it fits with all bytes that its context has had so far. */
  lemma BodyKeptExactly(l: Limits, ss: seq<System>, steps: seq<Step>, i: nat)
    requires IsTrace(l, ss, steps) && i < |steps| && steps[i].AddStep?
    ensures var h := steps[i].h;
            && h in ss[i].handlers && ss[i].handlers[h].stage.Body?
            && var c, size := ss[i].handlers[h].context, ss[i].handlers[h].stage.size;
               && c in ss[i].handlerBytes && c in ss[i + 1].handlerBytes
               && ss[i + 1].handlerBytes[c] == ss[i].handlerBytes[c] +
                    if ss[i].handlerBytes[c] + Sources(steps, i, c) + size <= l.totalBytes then size else 0
  {
    assert Next(l, ss[i], steps[i], ss[i + 1]);
    CountedAlways(l, ss, steps, i, ss[i].handlers[steps[i].h].context);
  }
}
