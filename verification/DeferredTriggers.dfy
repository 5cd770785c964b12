/**
 Deferred Debian triggers (src/deb_triggers.rs): activations are written to a file, and consumed
 in two phases. Activations by "-" (noawait) make the whole trigger due at PostInstall, the others
 are due at PostTransaction. Of the hook found for a trigger, if there is one, the model knows
 which activations it makes while it runs and whether it succeeds.
 */
module DeferredTriggers {
  import opened LooseEntry
  import opened UnincorpFormat
  import opened Wrappers

  datatype HookWhen = PostInstall | PostTransaction | OtherPhase

  datatype Failure = InvalidPhase | HookFailed

  const NOAWAIT: string := "-"

  // ---------------------------------------------------------------- on maps

  /** The activation of a trigger: by whom, and whether that package waits for it. */
  datatype Call = Call(name: string, activatingPackage: Option<string>, noAwait: bool) {
    /** Who is recorded as waiting for the trigger. */
    function Awaiter(): string {
      if noAwait || activatingPackage.None? then NOAWAIT else activatingPackage.value
    }
  }

  function Activated(m: Activations, name: string, awaiter: string): Activations {
    var packages := if name in m then m[name] else [];
    m[name := if awaiter in packages then packages else packages + [awaiter]]
  }

  /** The activation of a trigger by every word of `awaiter`, as it is read back from the file. */
  function WithWords(m: Activations, name: string, awaiter: string): Activations {
    var packages := if name in m then m[name] else [];
    NonEmpty(m - {name})[name := if awaiter in packages then packages else packages + Words(awaiter)]
  }

  predicate Due(packages: seq<string>, when: HookWhen) {
    match when
    case PostInstall => NOAWAIT in packages
    case PostTransaction => NOAWAIT !in packages
    case OtherPhase => false
  }

  function Consumed(m: Activations, when: HookWhen): Activations {
    map t | t in m && Due(m[t], when) :: m[t]
  }

  function Kept(m: Activations, when: HookWhen): Activations {
    map t | t in m && !Due(m[t], when) :: m[t]
  }

  /** `separate_unincorp_triggers` */
  method SeparateTriggers(m: Activations, when: HookWhen) returns (r: Result<(Activations, Activations), Failure>)
    ensures when == OtherPhase <==> r == Err(InvalidPhase)
    ensures when != OtherPhase ==> r == Ok((Consumed(m, when), Kept(m, when)))
  {
    var noawait: Activations, await: Activations := map[], map[];
    var todo := m.Keys;
    while todo != {}
      invariant todo <= m.Keys
      invariant noawait == map t | t in m && t !in todo && NOAWAIT in m[t] :: m[t]
      invariant await == map t | t in m && t !in todo && NOAWAIT !in m[t] :: m[t]
    {
      var t :| t in todo;
      if NOAWAIT in m[t] {
        noawait := noawait[t := m[t]];
      } else {
        await := await[t := m[t]];
      }
      todo := todo - {t};
    }
    assert noawait == Consumed(m, PostInstall) == Kept(m, PostTransaction);
    assert await == Consumed(m, PostTransaction) == Kept(m, PostInstall);
    match when
    case PostInstall => r := Ok((noawait, await));
    case PostTransaction => r := Ok((await, noawait));
    case OtherPhase => r := Err(InvalidPhase);
  }

  /** What the hook of a trigger does: it activates triggers, each for an awaiter, and ends. */
  datatype HookRun = HookRun(calls: seq<Call>, ok: bool)

  /** The activations made by the hooks that ran, in order. */
  function CallsOf(ran: seq<string>, hooks: string -> HookRun): seq<Call> {
    if ran == [] then [] else CallsOf(ran[..|ran| - 1], hooks) + hooks(ran[|ran| - 1]).calls
  }

  /** The hooks of `ran` ran, each once; only the last may have failed. */
  ghost predicate Ran(batch: Activations, hooks: string -> HookRun, ran: seq<string>) {
    && (forall i | 0 <= i < |ran| :: ran[i] in batch)
    && (forall i, j | 0 <= i < j < |ran| :: ran[i] != ran[j])
    && (forall i | 0 <= i < |ran| - 1 :: hooks(ran[i]).ok)
  }

  ghost predicate AllOk(batch: Activations, hooks: string -> HookRun) {
    forall t | t in batch :: hooks(t).ok
  }

  /** All activations made by the hooks of the batch are well-formed. */
  ghost predicate WellFormedCalls(batch: Activations, hooks: string -> HookRun) {
    forall t | t in batch :: GoodCalls(hooks(t).calls)
  }

  ghost predicate GoodCalls(calls: seq<Call>) {
    forall i | 0 <= i < |calls| :: GoodName(calls[i].name) && GoodWord(calls[i].Awaiter())
  }

  /** The pending activations after well-formed ones were made one after the other. */
  function ActivateAll(m: Activations, calls: seq<Call>): Activations {
    if calls == [] then m
    else
      var last := calls[|calls| - 1];
      NonEmpty(Activated(ActivateAll(m, calls[..|calls| - 1]), last.name, last.Awaiter()))
  }

  /** The pending activations after a phase whose hooks succeed; the file is rewritten only when
      something was due. */
  function Processed(m: Activations, when: HookWhen): Activations {
    if Consumed(m, when) == map[] then m else NonEmpty(Kept(m, when))
  }

  // ---------------------------------------------------------------- the file

  ghost predicate Holds(m: Activations, name: string, awaiter: string) {
    name in m && awaiter in m[name]
  }

  /** The text is one of the ways to write the map. */
  ghost predicate Rendering(m: Activations, text: string) {
    exists order :: Walk(m, order) && text == Render(m, order)
  }

  class TriggerStore {
    var file: Option<string>

    constructor ()
      ensures file == None
    {
      file := None;
    }

    function Pending(): Activations
      reads this
    {
      if file.None? then map[] else Parse(file.value)
    }

    /** `activate_trigger`: the file is rewritten with the activation added. It can be read back
        exactly when the trigger's name and the awaiter are words and the name is no comment. An
        awaiter with blanks is recorded as several; what is pending for other triggers is safe as
        long as the new line, as it will be read, says nothing else about them. */
    method Activate(name: string, activatingPackage: Option<string>, noAwait: bool)
      modifies this
      ensures var awaiter := Call(name, activatingPackage, noAwait).Awaiter();
              var all := Activated(old(Pending()), name, awaiter);
              && file.Some? && Rendering(all, file.value)
              && (GoodName(name) && GoodWord(awaiter) ==> Pending() == NonEmpty(all))
              && (Holds(Pending(), name, awaiter) <==> GoodName(name) && GoodWord(awaiter))
              && (Harmless(all, name) ==> OthersKept(all, name, Pending()))
              && (GoodName(name) && '\n' !in awaiter ==> Pending() == WithWords(old(Pending()), name, awaiter))
      ensures GoodName(name) && (noAwait || activatingPackage.None?) ==>
                Holds(Pending(), name, "-") && name in Consumed(Pending(), PostInstall)
      ensures GoodName(name) && !noAwait && activatingPackage.Some? && GoodWord(activatingPackage.value) ==>
                Holds(Pending(), name, activatingPackage.value)
    {
      hide Parse, Walk, Render, GoodName, GoodWord, NonEmpty, Harmless, OthersKept, WithWords;
      ghost var before := Pending();
      var activations: Activations := map[];
      if file.Some? {
        activations := ReadUnincorp(file.value);
      }
      var awaiter := if noAwait then NOAWAIT
                     else if activatingPackage.Some? then activatingPackage.value else NOAWAIT;
      var packages := if name in activations then activations[name] else [];
      if awaiter !in packages {
        packages := packages + [awaiter];
      }
      activations := activations[name := packages];
      var content, order := WriteUnincorp(activations);
      file := Some(content);

      assert activations == Activated(before, name, awaiter);
      assert Rendering(activations, content);
      PendingIsGood(before, old(file));
      ActivationRecorded(before, name, awaiter, content);
      OthersAreSafe(before, name, awaiter, order);
      WordsRecorded(before, name, awaiter, order);
      NoAwaitIsDue(Pending(), name);
    }

    /** A hook at work: each activation it makes rewrites the file. */
    method RunHook(calls: seq<Call>)
      modifies this
      ensures calls == [] ==> file == old(file)
      ensures GoodCalls(calls) ==> Pending() == ActivateAll(old(Pending()), calls)
    {
      hide GoodName, GoodWord, NonEmpty, Activated;
      assert calls[..0] == [];
      for i := 0 to |calls|
        invariant i == 0 ==> file == old(file)
        invariant GoodCalls(calls) ==> Pending() == ActivateAll(old(Pending()), calls[..i])
      {
        assert calls[..i + 1][..i] == calls[..i];
        Activate(calls[i].name, calls[i].activatingPackage, calls[i].noAwait);
      }
      assert calls[..|calls|] == calls;
    }

    /** `run_unincorp_trigger_hooks`: walk the batch, stop at the first hook that fails. */
    method RunHooks(batch: Activations, hooks: string -> HookRun) returns (done: bool, ghost ran: seq<string>)
      modifies this
      ensures done <==> AllOk(batch, hooks)
      ensures Ran(batch, hooks, ran) && (done ==> forall t | t in batch :: t in ran)
      ensures !done ==> ran != [] && !hooks(ran[|ran| - 1]).ok
      ensures CallsOf(ran, hooks) == [] ==> file == old(file)
      ensures WellFormedCalls(batch, hooks) ==> Pending() == ActivateAll(old(Pending()), CallsOf(ran, hooks))
    {
      hide ActivateAll, GoodCalls, CallsOf, Parse;
      ran := [];
      NothingCalled(old(Pending()), hooks);
      var todo := batch.Keys;
      while todo != {}
        invariant todo <= batch.Keys
        invariant forall t :: t in ran <==> t in batch && t !in todo
        invariant Ran(batch, hooks, ran) && forall t | t in batch && t !in todo :: hooks(t).ok
        invariant CallsOf(ran, hooks) == [] ==> file == old(file)
        invariant WellFormedCalls(batch, hooks) ==> Pending() == ActivateAll(old(Pending()), CallsOf(ran, hooks))
      {
        var t :| t in todo;
        todo := todo - {t};
        RunHook(hooks(t).calls);
        MoreCalled(old(Pending()), ran, hooks, t);
        ran := ran + [t];
        if !hooks(t).ok {
          return false, ran;
        }
      }
      return true, ran;
    }

    /** `run_debian_unincorp_triggers`. The file is read before the hooks run and, when they all
        succeed, written afterwards; what they activated in between is overwritten. */
    method Process(when: HookWhen, hooks: string -> HookRun) returns (r: Result<(), Failure>, ghost ran: seq<string>)
      modifies this
      ensures var before := old(Pending());
              var due := Consumed(before, when);
              if before == map[] then r == Ok(()) && file == old(file) && ran == []
              else if when == OtherPhase then r == Err(InvalidPhase) && file == old(file) && ran == []
              else if due == map[] then r == Ok(()) && file == old(file) && ran == []
              else if AllOk(due, hooks) then
                r == Ok(()) && Pending() == Processed(before, when) && forall t | t in due :: t in ran
              else r == Err(HookFailed) && ran != [] && !hooks(ran[|ran| - 1]).ok
                   && (CallsOf(ran, hooks) == [] ==> file == old(file))
      ensures Ran(Consumed(old(Pending()), when), hooks, ran)
      ensures WellFormedCalls(Consumed(old(Pending()), when), hooks) ==>
                Pending() == After(old(Pending()), Phase(when, r.Ok?, CallsOf(ran, hooks)))
    {
      hide ActivateAll, GoodCalls, CallsOf, Parse;
      ghost var before := Pending();
      ran := [];
      var activations: Activations := map[];
      if file.Some? {
        activations := ReadUnincorp(file.value);
      }
      if activations == map[] {
        return Ok(()), ran;
      }
      var parts := SeparateTriggers(activations, when);
      if parts.Err? {
        return Err(parts.error), ran;
      }
      var (due, rest) := parts.value;
      if due == map[] {
        return Ok(()), ran;
      }
      PendingIsGood(before, file);
      var done;
      done, ran := RunHooks(due, hooks);
      if !done {
        return Err(HookFailed), ran;
      }
      var content, order := WriteUnincorp(rest);
      file := Some(content);
      WrittenReadsBack(rest, order);
      return Ok(()), ran;
    }
  }

  lemma NoAwaitIsDue(m: Activations, name: string)
    ensures GoodWord("-") && (Holds(m, name, "-") ==> name in Consumed(m, PostInstall))
  {
  }

  lemma NothingCalled(m: Activations, hooks: string -> HookRun)
    ensures CallsOf([], hooks) == [] && ActivateAll(m, []) == m
  {
  }

  lemma MoreCalled(m: Activations, ran: seq<string>, hooks: string -> HookRun, t: string)
    ensures CallsOf(ran + [t], hooks) == CallsOf(ran, hooks) + hooks(t).calls
    ensures ActivateAll(ActivateAll(m, CallsOf(ran, hooks)), hooks(t).calls)
            == ActivateAll(m, CallsOf(ran + [t], hooks))
  {
    assert (ran + [t])[..|ran|] == ran;
    ActivateAllAppend(m, CallsOf(ran, hooks), hooks(t).calls);
  }

  lemma {:induction false} ActivateAllAppend(m: Activations, x: seq<Call>, y: seq<Call>)
    ensures ActivateAll(ActivateAll(m, x), y) == ActivateAll(m, x + y)
    decreases |y|
  {
    hide NonEmpty, Activated;
    if y == [] {
      assert x + y == x;
    } else {
      assert (x + y)[..|x + y| - 1] == x + y[..|y| - 1];
      ActivateAllAppend(m, x, y[..|y| - 1]);
    }
  }

  lemma PendingIsGood(m: Activations, file: Option<string>)
    requires m == if file.None? then map[] else Parse(file.value)
    ensures GoodEntries(m)
  {
    if file.Some? {
      ParsedIsGood(file.value);
    }
  }

  /** What a rewritten file says about the activation just added. */
  lemma ActivationRecorded(before: Activations, name: string, awaiter: string, content: string)
    requires GoodEntries(before) && Rendering(Activated(before, name, awaiter), content)
    ensures GoodName(name) && GoodWord(awaiter) ==> Parse(content) == NonEmpty(Activated(before, name, awaiter))
    ensures Holds(Parse(content), name, awaiter) <==> GoodName(name) && GoodWord(awaiter)
  {
    hide Parse, Render;
    var all := Activated(before, name, awaiter);
    var order :| Walk(all, order) && content == Render(all, order);
    ParsedIsGood(content);
    if GoodName(name) && GoodWord(awaiter) {
      ActivatedIsGood(before, name, awaiter);
      WrittenReadsBack(all, order);
    }
  }

  lemma ActivatedIsLoose(before: Activations, name: string, awaiter: string)
    requires GoodEntries(before)
    ensures OthersGood(Activated(before, name, awaiter), name)
  {
  }

  lemma OthersAreSafe(before: Activations, name: string, awaiter: string, order: seq<string>)
    requires GoodEntries(before) && Walk(Activated(before, name, awaiter), order)
    ensures var all := Activated(before, name, awaiter);
            Harmless(all, name) ==> OthersKept(all, name, Parse(Render(all, order)))
  {
    hide *;
    ActivatedIsLoose(before, name, awaiter);
    KeptInEveryOrder(Activated(before, name, awaiter), name);
  }

  lemma WordsRecorded(before: Activations, name: string, awaiter: string, order: seq<string>)
    requires GoodEntries(before) && Walk(Activated(before, name, awaiter), order)
    ensures GoodName(name) && '\n' !in awaiter ==>
              Parse(Render(Activated(before, name, awaiter), order)) == WithWords(before, name, awaiter)
  {
    hide Parse, Render, Walk, Words, GoodWord;
    var all := Activated(before, name, awaiter);
    var packages := if name in before then before[name] else [];
    assert all - {name} == before - {name};
    if awaiter in packages {
      assert all == before;
      WrittenReadsBack(all, order);
      assert NonEmpty(all) == NonEmpty(all - {name})[name := packages];
    } else if GoodName(name) && '\n' !in awaiter {
      ActivatedIsLoose(before, name, awaiter);
      LooseAwaiter(name, packages, awaiter);
      OneEntryReadsBack(all, name, order, packages + Words(awaiter));
    }
  }

  const FORGER: string := "x\nldconfig y"

  const FORGED: Activations := map["man-db" := ["x"], "ldconfig" := ["y"]]

  const PENDING_BEFORE: Activations := map["ldconfig" := ["libc6"]]

  /** A newline in an awaiter can take another trigger's pending packages away. */
  lemma ForgedLine()
    ensures var all := Activated(PENDING_BEFORE, "man-db", FORGER);
            && Said(all, "man-db") == FORGED && !Harmless(all, "man-db")
            && Walk(all, ["ldconfig", "man-db"]) && Parse(Render(all, ["ldconfig", "man-db"])) == FORGED
  {
    hide Parse, Render, Activated, Walk, Writable;
    var all := Activated(PENDING_BEFORE, "man-db", FORGER);
    ForgedShape();
    ForgedLineSays();
    ForgedOverrides(all, ["ldconfig"], "man-db");
    assert ["ldconfig", "man-db"] == ["ldconfig"] + ["man-db"];
    assert "ldconfig"[0] != "man-db"[0];
    assert FORGED["ldconfig"][0] == "y" && all["ldconfig"][0] == "libc6" && |"y"| != |"libc6"|;
  }

  lemma ForgedOverrides(all: Activations, pre: seq<string>, t: string)
    requires t in all && all[t] != [] && Writable(all, pre) && Said(all, t) == FORGED
    requires forall u | u in pre :: u in FORGED
    ensures forall i | 0 <= i < |pre + [t]| :: (pre + [t])[i] in all
    ensures Parse(Render(all, pre + [t])) == FORGED
  {
    hide Parse, Render, Said, GoodName, GoodWords;
    LooseReadsBack(all, t, pre, []);
    assert pre + [t] + [] == pre + [t];
    assert Entries(all, pre) + FORGED + Entries(all, []) == FORGED;
  }

  lemma ForgedShape()
    ensures var all := Activated(PENDING_BEFORE, "man-db", FORGER);
            && all == map["ldconfig" := ["libc6"], "man-db" := [FORGER]]
            && Writable(all, ["ldconfig"]) && Writable(all, []) && Walk(all, ["ldconfig", "man-db"])
  {
    var all := map["ldconfig" := ["libc6"], "man-db" := [FORGER]];
    assert [] + [FORGER] == [FORGER];
    assert GoodName("ldconfig") && GoodWords(["libc6"]);
    var order := ["ldconfig", "man-db"];
    assert order[0] == "ldconfig" && order[1] == "man-db";
  }

  lemma LineText(t: string, p: string)
    ensures EntryLine(t, [p]) == t + " " + p + "\n"
  {
    assert [p][1..] == [];
    assert Tail([p]) == " " + p;
  }

  lemma ForgedLineSays()
    ensures Parse(EntryLine("man-db", [FORGER])) == FORGED
  {
    hide Parse, EntryLine;
    var one, two := EntryLine("man-db", ["x"]), EntryLine("ldconfig", ["y"]);
    LineText("man-db", FORGER);
    LineText("man-db", "x");
    LineText("ldconfig", "y");
    assert "man-db" + " " + FORGER + "\n" == ("man-db" + " " + "x" + "\n") + ("ldconfig" + " " + "y" + "\n");
    ParseAppend(one, two);
    LineSays("man-db", "x");
    LineSays("ldconfig", "y");
  }

  lemma LineSays(t: string, p: string)
    requires GoodName(t) && GoodWord(p)
    ensures Parse(EntryLine(t, [p])) == map[t := [p]]
  {
    hide Parse, Render;
    var m := map[t := [p]];
    RenderOne(m, t);
    assert Writable(m, [t]);
    PartReadsBack(m, [t]);
  }

  lemma ActivatedIsGood(m: Activations, name: string, awaiter: string)
    requires GoodEntries(m) && GoodName(name) && GoodWord(awaiter)
    ensures GoodEntries(Activated(m, name, awaiter))
  {
  }

  // ---------------------------------------------------------------- runs

  /** What can happen to the store. In a phase `succeeds` says whether all hooks due succeed, and
      `made` lists the activations made by the hooks that ran. */
  datatype Event =
    | Activation(call: Call)
    | Phase(when: HookWhen, succeeds: bool, made: seq<Call>)

  function After(m: Activations, e: Event): Activations {
    match e
    case Activation(call) => NonEmpty(Activated(m, call.name, call.Awaiter()))
    case Phase(when, succeeds, made) =>
      if Consumed(m, when) == map[] then m
      else if succeeds then Processed(m, when) else ActivateAll(m, made)
  }

  /** The activations whose hooks an event has run. */
  function Batch(m: Activations, e: Event): Activations {
    if e.Phase? && e.succeeds then Consumed(m, e.when) else map[]
  }

  function AfterAll(m: Activations, run: seq<Event>): Activations {
    if run == [] then m else After(AfterAll(m, run[..|run| - 1]), run[|run| - 1])
  }

  ghost predicate Recordable(e: Event) {
    match e
    case Activation(call) => GoodName(call.name) && GoodWord(call.Awaiter())
    case Phase(_, _, made) => GoodCalls(made)
  }

  /** Who is recorded when a trigger is activated, behind those that wait already, and in which phase
      its hook is due: in the first if anyone waits as "-". */
  lemma ActivationIsDue(m: Activations, call: Call)
    ensures var (t, after) := (call.name, After(m, Activation(call)));
            var before := if t in m then m[t] else [];
            var who := if !call.noAwait && call.activatingPackage.Some? then call.activatingPackage.value else "-";
            && t in after && after[t] == (if who in before then before else before + [who])
            && (t in Consumed(after, PostInstall) <==> who == "-" || "-" in before)
            && (t in Consumed(after, PostTransaction) <==> who != "-" && "-" !in before)
            && forall u | u in m && u != t && m[u] != [] :: u in after && after[u] == m[u]
  {
  }

  /** Nothing but what can be written and read back. */
  ghost predicate Survives(m: Activations) {
    GoodEntries(m) && forall t | t in m :: m[t] != []
  }

  /** Every file that runs can reach reads back as the map it was written from, in every order of
      the writer. */
  lemma {:induction false} ReachableSurvives(m: Activations, run: seq<Event>, order: seq<string>)
    requires Survives(m) && forall i | 0 <= i < |run| :: Recordable(run[i])
    ensures Survives(AfterAll(m, run))
    ensures Walk(AfterAll(m, run), order) ==> Parse(Render(AfterAll(m, run), order)) == AfterAll(m, run)
    decreases |run|
  {
    hide Parse, Render, Walk, GoodName, GoodWords;
    if run != [] {
      ReachableSurvives(m, run[..|run| - 1], order);
      assert Recordable(run[|run| - 1]);
      StepSurvives(AfterAll(m, run[..|run| - 1]), run[|run| - 1]);
    }
    if Walk(AfterAll(m, run), order) {
      RoundTrip(AfterAll(m, run), order);
    }
  }

  lemma StepSurvives(m: Activations, e: Event)
    requires Survives(m) && Recordable(e)
    ensures Survives(After(m, e))
  {
    match e
    case Activation(call) => ActivatedIsGood(m, call.name, call.Awaiter());
    case Phase(_, _, made) => CallsSurvive(m, made);
  }

  lemma {:induction false} CallsSurvive(m: Activations, calls: seq<Call>)
    requires Survives(m) && GoodCalls(calls)
    ensures Survives(ActivateAll(m, calls))
    decreases |calls|
  {
    hide GoodName, GoodWord, GoodWords;
    if calls != [] {
      var n := |calls| - 1;
      assert GoodName(calls[n].name) && GoodWord(calls[n].Awaiter());
      CallsSurvive(m, calls[..n]);
      ActivatedIsGood(ActivateAll(m, calls[..n]), calls[n].name, calls[n].Awaiter());
    }
  }

  /** Performing a run on the file gives the pending activations that the run specifies. */
  method Perform(store: TriggerStore, run: seq<Event>)
    requires forall i | 0 <= i < |run| :: Recordable(run[i])
    modifies store
    ensures store.Pending() == AfterAll(old(store.Pending()), run)
  {
    hide GoodName, GoodWord, Processed, NonEmpty, Activated;
    assert run[..0] == [];
    for i := 0 to |run|
      invariant store.Pending() == AfterAll(old(store.Pending()), run[..i])
    {
      assert run[..i + 1][..i] == run[..i];
      assert Recordable(run[i]);
      match run[i] {
        case Activation(call) =>
          store.Activate(call.name, call.activatingPackage, call.noAwait);
        case Phase(when, succeeds, made) =>
          PerformPhase(store, when, succeeds, made);
      }
    }
    assert run[..|run|] == run;
  }

  /** A phase in which every hook that runs makes the given activations. */
  method PerformPhase(store: TriggerStore, when: HookWhen, succeeds: bool, made: seq<Call>)
    requires GoodCalls(made)
    modifies store
    ensures store.Pending() == After(old(store.Pending()), Phase(when, succeeds, made))
  {
    hide GoodCalls, ActivateAll, Processed;
    ghost var due := Consumed(store.Pending(), when);
    var hooks := t => HookRun(made, succeeds);
    var r, ran := store.Process(when, hooks);
    if due != map[] && !succeeds {
      FailsAtOnce(due, hooks, ran, made);
    }
  }

  /** When every hook fails, one runs. */
  lemma FailsAtOnce(due: Activations, hooks: string -> HookRun, ran: seq<string>, made: seq<Call>)
    requires Ran(due, hooks, ran) && ran != [] && forall t :: hooks(t) == HookRun(made, false)
    ensures CallsOf(ran, hooks) == made
  {
    assert |ran| > 1 ==> hooks(ran[0]).ok;
    assert ran[..|ran| - 1] == [];
  }

  /** The batch of event `j` held this activation. */
  ghost predicate ConsumedAt(m: Activations, run: seq<Event>, j: nat, name: string, awaiter: string)
    requires j < |run|
  {
    Holds(Batch(AfterAll(m, run[..j]), run[j]), name, awaiter)
  }

  /** The event makes the activation, and it stays: made directly, or by a hook in a phase that
      fails. */
  ghost predicate Makes(m: Activations, e: Event, name: string, awaiter: string) {
    match e
    case Activation(call) => call.name == name && call.Awaiter() == awaiter
    case Phase(when, succeeds, made) => Consumed(m, when) != map[] && !succeeds && Called(made, name, awaiter)
  }

  /** One of the calls makes the activation. */
  ghost predicate Called(calls: seq<Call>, name: string, awaiter: string) {
    exists i :: 0 <= i < |calls| && calls[i].name == name && calls[i].Awaiter() == awaiter
  }

  lemma CalledLast(calls: seq<Call>, name: string, awaiter: string)
    requires calls != []
    ensures var last := calls[|calls| - 1];
            Called(calls, name, awaiter)
            <==> Called(calls[..|calls| - 1], name, awaiter) || (last.name == name && last.Awaiter() == awaiter)
  {
    var n := |calls| - 1;
    forall i | 0 <= i < n
      ensures calls[..n][i] == calls[i]
    {
    }
  }

  lemma ActivatedHolds(m: Activations, n: string, a: string, name: string, awaiter: string)
    ensures Holds(NonEmpty(Activated(m, n, a)), name, awaiter)
            <==> (n == name && a == awaiter) || Holds(m, name, awaiter)
  {
  }

  lemma {:induction false} CallsHold(m: Activations, calls: seq<Call>, name: string, awaiter: string)
    ensures Holds(ActivateAll(m, calls), name, awaiter) <==> Called(calls, name, awaiter) || Holds(m, name, awaiter)
    decreases |calls|
  {
    hide Holds, NonEmpty, Activated;
    if calls != [] {
      var n := |calls| - 1;
      CalledLast(calls, name, awaiter);
      CallsHold(m, calls[..n], name, awaiter);
      ActivatedHolds(ActivateAll(m, calls[..n]), calls[n].name, calls[n].Awaiter(), name, awaiter);
    }
  }

  lemma ProcessedHolds(m: Activations, when: HookWhen, name: string, awaiter: string)
    requires Consumed(m, when) != map[]
    ensures Holds(Processed(m, when), name, awaiter) <==> Holds(Kept(m, when), name, awaiter)
    ensures Holds(Kept(m, when), name, awaiter)
            <==> Holds(m, name, awaiter) && !Holds(Consumed(m, when), name, awaiter)
  {
    if name in m {
      assert awaiter in m[name] ==> m[name] != [];
      assert name in Consumed(m, when) <==> Due(m[name], when);
    }
  }

  /** One event neither loses nor invents an activation that was pending. */
  lemma StepConserves(m: Activations, e: Event, name: string, awaiter: string)
    ensures Holds(After(m, e), name, awaiter) <==>
              Makes(m, e, name, awaiter) || (Holds(m, name, awaiter) && !Holds(Batch(m, e), name, awaiter))
  {
    hide Holds, NonEmpty, Activated, Consumed, Processed, ActivateAll;
    NothingHeld(name, awaiter);
    match e
    case Activation(call) => ActivatedHolds(m, call.name, call.Awaiter(), name, awaiter);
    case Phase(when, succeeds, made) =>
      CallsHold(m, made, name, awaiter);
      if Consumed(m, when) != map[] {
        ProcessedHolds(m, when, name, awaiter);
      }
  }

  lemma NothingHeld(name: string, awaiter: string)
    ensures !Holds(map[], name, awaiter)
  {
  }

  /** What a hook activates while a phase runs is pending afterwards if and only if a hook fails, or
      it was pending before and is not consumed. */
  lemma HookActivationSurvives(m: Activations, when: HookWhen, succeeds: bool, made: seq<Call>,
                               name: string, awaiter: string)
    requires Consumed(m, when) != map[] && Called(made, name, awaiter)
    ensures Holds(After(m, Phase(when, succeeds, made)), name, awaiter)
            <==> !succeeds || Holds(Kept(m, when), name, awaiter)
  {
    hide Holds, Consumed, Processed, ActivateAll, Kept;
    CallsHold(m, made, name, awaiter);
    ProcessedHolds(m, when, name, awaiter);
  }

  lemma RunPrefix(run: seq<Event>, j: nat)
    requires j < |run|
    ensures run[..|run| - 1][..j] == run[..j]
  {
  }

  /** Every activation made at event `i` (or pending at the start, `i == 0`) is still pending at
      the end or was in a batch consumed since. */
  lemma {:induction false} NothingLost(m: Activations, run: seq<Event>, i: nat, name: string, awaiter: string)
    requires i <= |run| && Holds(AfterAll(m, run[..i]), name, awaiter)
    ensures Holds(AfterAll(m, run), name, awaiter) || exists j :: i <= j < |run| && ConsumedAt(m, run, j, name, awaiter)
    decreases |run|
  {
    hide After, Batch, Holds;
    if i == |run| {
      assert run[..i] == run;
    } else {
      var n := |run| - 1;
      var shorter := run[..n];
      assert shorter[..i] == run[..i];
      NothingLost(m, shorter, i, name, awaiter);
      if Holds(AfterAll(m, shorter), name, awaiter) {
        StepConserves(AfterAll(m, shorter), run[n], name, awaiter);
        assert ConsumedAt(m, run, n, name, awaiter) || Holds(AfterAll(m, run), name, awaiter);
      } else {
        var j :| i <= j < n && ConsumedAt(m, shorter, j, name, awaiter);
        RunPrefix(run, j);
        assert ConsumedAt(m, run, j, name, awaiter);
      }
    }
  }

  /** Whatever is pending was pending at the start or activated since, and not consumed after that. */
  lemma {:induction false} NothingInvented(m: Activations, run: seq<Event>, name: string, awaiter: string)
    requires Holds(AfterAll(m, run), name, awaiter)
    ensures (Holds(m, name, awaiter) && forall j :: 0 <= j < |run| ==> !ConsumedAt(m, run, j, name, awaiter))
            || exists i :: 0 <= i < |run| && LastActivation(m, run, i, name, awaiter)
    decreases |run|
  {
    hide After, Batch, Holds, Makes;
    if run != [] {
      var n := |run| - 1;
      var shorter := run[..n];
      StepConserves(AfterAll(m, shorter), run[n], name, awaiter);
      if Makes(AfterAll(m, shorter), run[n], name, awaiter) {
        assert LastActivation(m, run, n, name, awaiter);
      } else {
        NothingInvented(m, shorter, name, awaiter);
        assert !ConsumedAt(m, run, n, name, awaiter);
        forall j | 0 <= j < n
          ensures ConsumedAt(m, run, j, name, awaiter) <==> ConsumedAt(m, shorter, j, name, awaiter)
        {
          RunPrefix(run, j);
        }
        if i :| 0 <= i < n && LastActivation(m, shorter, i, name, awaiter) {
          RunPrefix(run, i);
          assert LastActivation(m, run, i, name, awaiter);
        }
      }
    }
  }

  /** Event `i` made this activation and no later batch took it. */
  ghost predicate LastActivation(m: Activations, run: seq<Event>, i: nat, name: string, awaiter: string)
    requires i < |run|
  {
    && Makes(AfterAll(m, run[..i]), run[i], name, awaiter)
    && forall j :: i < j < |run| ==> !ConsumedAt(m, run, j, name, awaiter)
  }

  /** After PostInstall no pending trigger is noawait, after PostTransaction every one is. */
  lemma PhaseSeparates(m: Activations, t: string)
    ensures t in Processed(m, PostInstall) ==> NOAWAIT !in Processed(m, PostInstall)[t]
    ensures t in Processed(m, PostTransaction) ==> NOAWAIT in Processed(m, PostTransaction)[t]
  {
    if t in m {
      assert Due(m[t], PostInstall) ==> t in Consumed(m, PostInstall);
      assert Due(m[t], PostTransaction) ==> t in Consumed(m, PostTransaction);
    }
  }

  /** The two phases in a row, in either order, leave nothing pending. */
  lemma BothPhasesEmpty(m: Activations)
    ensures Processed(Processed(m, PostInstall), PostTransaction) == map[]
    ensures Processed(Processed(m, PostTransaction), PostInstall) == map[]
  {
    var a, b := Processed(m, PostInstall), Processed(m, PostTransaction);
    forall t | t in a
      ensures Due(a[t], PostTransaction)
    {
      PhaseSeparates(m, t);
    }
    forall t | t in b
      ensures Due(b[t], PostInstall)
    {
      PhaseSeparates(m, t);
    }
    AllDue(a, PostTransaction);
    AllDue(b, PostInstall);
  }

  lemma AllDue(m: Activations, when: HookWhen)
    requires forall t | t in m :: Due(m[t], when)
    ensures Processed(m, when) == map[]
  {
    assert Consumed(m, when) == m;
    assert Kept(m, when) == map[];
  }

  /** No package waits twice for the same trigger. */
  ghost predicate NoDuplicates(m: Activations) {
    forall t, i, j | t in m && 0 <= i < j < |m[t]| :: m[t][i] != m[t][j]
  }

  lemma {:induction false} RunKeepsNoDuplicates(m: Activations, run: seq<Event>)
    requires NoDuplicates(m)
    ensures NoDuplicates(AfterAll(m, run))
    decreases |run|
  {
    if run != [] {
      RunKeepsNoDuplicates(m, run[..|run| - 1]);
      var before := AfterAll(m, run[..|run| - 1]);
      match run[|run| - 1] {
        case Activation(call) => assert NoDuplicates(Activated(before, call.name, call.Awaiter()));
        case Phase(_, _, made) => CallsKeepNoDuplicates(before, made);
      }
    }
  }

  lemma {:induction false} CallsKeepNoDuplicates(m: Activations, calls: seq<Call>)
    requires NoDuplicates(m)
    ensures NoDuplicates(ActivateAll(m, calls))
    decreases |calls|
  {
    if calls != [] {
      var last := calls[|calls| - 1];
      var before := ActivateAll(m, calls[..|calls| - 1]);
      CallsKeepNoDuplicates(m, calls[..|calls| - 1]);
      assert NoDuplicates(Activated(before, last.name, last.Awaiter()));
    }
  }
}
