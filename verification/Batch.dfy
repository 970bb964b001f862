/** The bounded, input-ordered batch protocol.

    Workers finish in any order; the driver buffers their completions in a
    window of at most `maxInFlight` entries and yields them in input order.
    The thread pool and the channel are a nondeterministic environment: between
    two driver steps any number of workers may finish, and an environment that
    is not faithful may also lose workers, or even put forged completions on the
    channel, which is what the driver's error branches are for. */
module BatchProtocol {
  import opened Wrappers

  datatype Source = Source(path: string, text: string)

  datatype ProjectError = WorkerPanic | Rejected(message: string)

  type LintOutcome = Result<string, ProjectError>

  datatype BatchResult = BatchResult(index: nat, path: string, result: LintOutcome)

  datatype CompletedBatch = CompletedBatch(index: nat, result: LintOutcome)

  datatype PendingEntry = PendingEntry(path: string, result: Option<LintOutcome>)

  datatype CompletionError = UnknownIndex | DuplicateIndex

  const WORKER_PANIC: LintOutcome := Failure(WorkerPanic)

  /** The entries still waiting for their worker. */
  function Unresolved(entries: map<nat, PendingEntry>): set<nat> {
    set i | i in entries && entries[i].result.None?
  }

  /** What a sequential loop over the inputs would produce. */
  function SequentialMap(lint: Source -> LintOutcome, inputs: seq<Source>): seq<BatchResult> {
    seq(|inputs|, i requires 0 <= i < |inputs| => BatchResult(i, inputs[i].path, lint(inputs[i])))
  }

  /** The window of submitted but not yet yielded inputs. */
  class PendingBatch {
    var nextIndex: nat
    var nextExpected: nat
    var inFlight: nat
    const maxInFlight: nat
    var entries: map<nat, PendingEntry>

    ghost predicate Valid()
      reads this
    {
      && 0 < maxInFlight
      && nextExpected + inFlight == nextIndex
      && inFlight <= maxInFlight
      && forall i :: i in entries <==> nextExpected <= i < nextIndex
    }

    constructor (window: nat)
      requires 0 < window
      ensures Valid() && maxInFlight == window
      ensures nextIndex == 0 && nextExpected == 0 && entries == map[]
    {
      nextIndex, nextExpected, inFlight, maxInFlight, entries := 0, 0, 0, window, map[];
    }

    predicate CanSubmit()
      reads this
    {
      inFlight < maxInFlight
    }

    method Submit(path: string) returns (index: nat)
      requires Valid() && CanSubmit()
      modifies this
      ensures Valid()
      ensures index == old(nextIndex) && index !in old(entries)
      ensures nextIndex == index + 1 && nextExpected == old(nextExpected)
      ensures entries == old(entries)[index := PendingEntry(path, None)]
    {
      index := nextIndex;
      nextIndex := nextIndex + 1;
      inFlight := inFlight + 1;
      entries := entries[index := PendingEntry(path, None)];
    }

    method Complete(completed: CompletedBatch) returns (r: Option<CompletionError>)
      requires Valid()
      modifies this`entries
      ensures Valid()
      ensures r == Some(UnknownIndex) <==> completed.index !in old(entries)
      ensures r == None <==> completed.index in Unresolved(old(entries))
      ensures r.Some? ==> entries == old(entries)
      ensures r.None? ==>
                && completed.index in old(entries)
                && entries == old(entries)[completed.index :=
                                old(entries)[completed.index].(result := Some(completed.result))]
    {
      if completed.index !in entries {
        return Some(UnknownIndex);
      }
      var entry := entries[completed.index];
      if entry.result.Some? {
        return Some(DuplicateIndex);
      }
      entries := entries[completed.index := entry.(result := Some(completed.result))];
      r := None;
    }

    method FailProtocol()
      requires Valid()
      modifies this`entries
      ensures Valid() && entries.Keys == old(entries).Keys
      ensures forall i :: i in entries ==> entries[i] == PendingEntry(old(entries)[i].path, Some(WORKER_PANIC))
    {
      entries := map i | i in entries :: entries[i].(result := Some(WORKER_PANIC));
    }

    method SynthesizeMissing()
      requires Valid()
      modifies this`entries
      ensures Valid() && entries.Keys == old(entries).Keys
      ensures forall i :: i in entries ==>
                entries[i] == if old(entries)[i].result.None?
                              then PendingEntry(old(entries)[i].path, Some(WORKER_PANIC))
                              else old(entries)[i]
    {
      entries := map i | i in entries ::
        if entries[i].result.None? then entries[i].(result := Some(WORKER_PANIC)) else entries[i];
    }

    method TakeReady() returns (r: Option<BatchResult>)
      requires Valid()
      modifies this
      ensures Valid() && nextIndex == old(nextIndex)
      ensures r.Some? <==> old(nextExpected in entries && entries[nextExpected].result.Some?)
      ensures r.None? ==> entries == old(entries) && nextExpected == old(nextExpected)
      ensures r.Some? ==>
                var index := old(nextExpected);
                && r.value == BatchResult(index, old(entries)[index].path, old(entries)[index].result.value)
                && nextExpected == index + 1
                && entries == old(entries) - {index}
    {
      var index := nextExpected;
      if index !in entries {
        return None;
      }
      var entry := entries[index];
      if entry.result.None? {
        return None;
      }
      entries := entries - {index};
      nextExpected := nextExpected + 1;
      inFlight := inFlight - 1;
      r := Some(BatchResult(index, entry.path, entry.result.value));
    }
  }

  /** What a blocking receive on the completion channel can come to.
      `Hangs`: a sender is alive but nothing will ever be sent. */
  datatype Received = Message(completed: CompletedBatch) | Disconnected | Hangs

  /** A faithful environment runs every worker to its end; a losing one may drop
      workers; a forging one may also send what no worker has completed. */
  datatype Environment = Faithful | Losing | Forging

  /** What is running or queued is owed, each completion once, with its lint result;
      if `complete`, nothing else is owed. */
  ghost predicate Accounts(lint: Source -> LintOutcome, running: map<nat, Source>, queue: seq<CompletedBatch>,
                           owed: map<nat, LintOutcome>, complete: bool)
  {
    && (forall i :: i in running ==> i in owed && owed[i] == lint(running[i]))
    && (forall k :: 0 <= k < |queue| ==>
          && queue[k].index in owed && owed[queue[k].index] == queue[k].result
          && queue[k].index !in running)
    && (forall j, k :: 0 <= j < k < |queue| ==> queue[j].index != queue[k].index)
    && (complete ==> forall i :: i in owed ==> i in running || exists k :: 0 <= k < |queue| && queue[k].index == i)
  }

  lemma SpawningAccounts(lint: Source -> LintOutcome, running: map<nat, Source>, queue: seq<CompletedBatch>,
                         owed: map<nat, LintOutcome>, complete: bool, index: nat, source: Source)
    requires Accounts(lint, running, queue, owed, complete) && index !in owed
    ensures Accounts(lint, running[index := source], queue, owed[index := lint(source)], complete)
  {
  }

  lemma FinishingAccounts(lint: Source -> LintOutcome, running: map<nat, Source>, queue: seq<CompletedBatch>,
                          owed: map<nat, LintOutcome>, complete: bool, index: nat)
    requires Accounts(lint, running, queue, owed, complete) && index in running
    ensures Accounts(lint, running - {index}, queue + [CompletedBatch(index, lint(running[index]))], owed, complete)
  {
    var more := queue + [CompletedBatch(index, lint(running[index]))];
    assert more[|queue|].index == index;
    assert forall k :: 0 <= k < |queue| ==> more[k] == queue[k];
  }

  lemma ReceivingAccounts(lint: Source -> LintOutcome, running: map<nat, Source>, queue: seq<CompletedBatch>,
                          owed: map<nat, LintOutcome>, complete: bool)
    requires Accounts(lint, running, queue, owed, complete) && queue != []
    ensures queue[0].index in owed && owed[queue[0].index] == queue[0].result
    ensures Accounts(lint, running, queue[1..], owed - {queue[0].index}, complete)
  {
    var rest := queue[1..];
    assert forall k :: 0 <= k < |rest| ==> rest[k] == queue[k + 1];
    forall i | complete && i in owed && i != queue[0].index && i !in running
      ensures exists k :: 0 <= k < |rest| && rest[k].index == i
    {
      var k :| 0 <= k < |queue| && queue[k].index == i;
      assert rest[k - 1].index == i;
    }
  }

  lemma IdleOwesNothing(lint: Source -> LintOutcome, owed: map<nat, LintOutcome>)
    requires Accounts(lint, map[], [], owed, true)
    ensures owed == map[]
  {
  }

  /** The worker pool together with the completion channel. */
  class Workers {
    const lint: Source -> LintOutcome
    const environment: Environment
    var running: map<nat, Source>
    var queue: seq<CompletedBatch>
    /** The completions still to be delivered. */
    ghost var owed: map<nat, LintOutcome>

    ghost predicate Valid()
      reads this
    {
      !environment.Forging? ==> Accounts(lint, running, queue, owed, environment.Faithful?)
    }

    constructor (lint: Source -> LintOutcome, environment: Environment)
      ensures Valid() && this.lint == lint && this.environment == environment
      ensures running == map[] && queue == [] && owed == map[]
    {
      this.lint, this.environment := lint, environment;
      running, queue, owed := map[], [], map[];
    }

    method Spawn(index: nat, source: Source)
      requires Valid() && (!environment.Forging? ==> index !in owed)
      modifies this
      ensures Valid()
      ensures running == old(running)[index := source] && queue == old(queue)
      ensures owed == old(owed)[index := lint(source)]
    {
      if !environment.Forging? {
        SpawningAccounts(lint, running, queue, owed, environment.Faithful?, index, source);
      }
      running := running[index := source];
      owed := owed[index := lint(source)];
    }

    /** One worker runs to completion: it sends its result, unless the
        environment loses it. */
    method FinishOne(index: nat)
      requires Valid() && index in running
      modifies this`running, this`queue
      ensures Valid() && running == old(running) - {index}
      ensures environment.Faithful? ==> queue == old(queue) + [CompletedBatch(index, lint(old(running)[index]))]
    {
      var source := running[index];
      if !environment.Forging? {
        FinishingAccounts(lint, running, queue, owed, environment.Faithful?, index);
      }
      running := running - {index};
      var lost: bool := *;
      if environment.Faithful? || !lost {
        queue := queue + [CompletedBatch(index, lint(source))];
      }
    }

    /** Any number of steps of the environment, in any order. */
    method Interleave()
      requires Valid()
      modifies this`running, this`queue
      ensures Valid()
    {
      var steps: nat := *;
      while steps > 0
        invariant Valid()
        modifies this`running, this`queue
      {
        var forge: bool := *;
        if forge && environment.Forging? {
          var forged: CompletedBatch := *;
          queue := queue + [forged];
        } else if running != map[] {
          var index :| index in running;
          FinishOne(index);
        }
        steps := steps - 1;
      }
    }

    /** Block until a completion arrives or every sender is gone.
        `driverSender`: the driver still holds a sender of its own. */
    method Receive(driverSender: bool) returns (r: Received)
      requires Valid()
      modifies this
      ensures Valid()
      ensures r.Hangs? ==> driverSender && running == map[] && queue == []
      // Without forgery a message is an owed completion; after a disconnect nothing is owed.
      ensures !environment.Forging? && r.Message? ==>
                && r.completed.index in old(owed)
                && r.completed.result == old(owed)[r.completed.index]
                && owed == old(owed) - {r.completed.index}
      ensures !environment.Forging? && !r.Message? ==> owed == if r.Hangs? then old(owed) else map[]
      // A faithful environment delivers as long as something is owed.
      ensures environment.Faithful? ==> (r.Message? <==> old(owed) != map[])
      ensures environment.Faithful? && old(owed) == map[] ==> (r.Hangs? <==> driverSender)
      ensures r.Disconnected? ==> !driverSender
    {
      Interleave();
      while queue == [] && running != map[]
        invariant Valid() && owed == old(owed)
        decreases running.Keys
      {
        var index :| index in running;
        FinishOne(index);
      }
      if queue != [] {
        if !environment.Forging? {
          ReceivingAccounts(lint, running, queue, owed, environment.Faithful?);
        }
        r := Message(queue[0]);
        queue := queue[1..];
        owed := owed - {r.completed.index};
      } else {
        if environment.Faithful? {
          IdleOwesNothing(lint, owed);
        }
        if driverSender {
          r := Hangs;
        } else {
          r, owed := Disconnected, map[];
        }
      }
    }
  }

  datatype Step = Yield(result: BatchResult) | Done | Hung

  /** The entries stand for inputs, under their own indexes. */
  ghost predicate Shows(input: nat -> Option<Source>, entries: map<nat, PendingEntry>) {
    forall i :: i in entries ==> input(i).Some? && entries[i].path == input(i).value.path
  }

  /** The unresolved entries are exactly the completions still owed, and every
      resolved entry has its lint result, or stands for a lost worker. */
  ghost predicate Settles(input: nat -> Option<Source>, lint: Source -> LintOutcome,
                          entries: map<nat, PendingEntry>, owed: map<nat, LintOutcome>, losing: bool)
  {
    && owed.Keys == Unresolved(entries)
    && forall i :: i in entries ==>
         && input(i).Some?
         && var outcome := lint(input(i).value);
            match entries[i].result
            case None => i in owed && owed[i] == outcome
            case Some(r) => r == outcome || (losing && r == WORKER_PANIC)
  }

  lemma CompletingSettles(input: nat -> Option<Source>, lint: Source -> LintOutcome,
                          entries: map<nat, PendingEntry>, owed: map<nat, LintOutcome>, losing: bool,
                          index: nat, result: LintOutcome)
    requires Shows(input, entries) && index in Unresolved(entries)
    ensures var more := entries[index := entries[index].(result := Some(result))];
            && Shows(input, more) && Unresolved(more) == Unresolved(entries) - {index}
            && (Settles(input, lint, entries, owed, losing) && owed[index] == result ==>
                Settles(input, lint, more, owed - {index}, losing))
  {
    var more := entries[index := entries[index].(result := Some(result))];
    assert Unresolved(more) == Unresolved(entries) - {index};
  }

  /** Every unresolved entry has become a worker panic. */
  ghost predicate Fills(entries: map<nat, PendingEntry>, filled: map<nat, PendingEntry>) {
    && filled.Keys == entries.Keys
    && forall i :: i in filled ==>
         filled[i] == if entries[i].result.Some? then entries[i]
                      else PendingEntry(entries[i].path, Some(WORKER_PANIC))
  }

  /** Once nothing can arrive any more, what is unresolved stands for lost workers. */
  lemma MissingSettles(input: nat -> Option<Source>, lint: Source -> LintOutcome, entries: map<nat, PendingEntry>,
                       owed: map<nat, LintOutcome>, filled: map<nat, PendingEntry>)
    requires Shows(input, entries) && Fills(entries, filled)
    ensures Shows(input, filled) && Unresolved(filled) == {}
    ensures Settles(input, lint, entries, owed, true) ==> Settles(input, lint, filled, map[], true)
  {
  }

  lemma SubmittingSettles(input: nat -> Option<Source>, lint: Source -> LintOutcome,
                          entries: map<nat, PendingEntry>, owed: map<nat, LintOutcome>, losing: bool,
                          index: nat, source: Source)
    requires Shows(input, entries) && index !in entries && input(index) == Some(source)
    ensures var more := entries[index := PendingEntry(source.path, None)];
            && Shows(input, more) && Unresolved(more) == Unresolved(entries) + {index}
            && (Settles(input, lint, entries, owed, losing) ==>
                Settles(input, lint, more, owed[index := lint(source)], losing))
  {
    var more := entries[index := PendingEntry(source.path, None)];
    assert Unresolved(more) == Unresolved(entries) + {index};
  }

  /** The driver behind the batch iterator. `input(k)` is what the k-th call of
      the input iterator returns; the input may be infinite. */
  class BatchDriver {
    const input: nat -> Option<Source>
    const pending: PendingBatch
    const workers: Workers
    var sender: bool
    var exhausted: bool
    var aborted: bool
    var finished: bool

    /** What holds between two calls of the iterator. */
    ghost predicate Valid()
      reads this, pending, workers
    {
      && pending.Valid() && workers.Valid()
         // The window shows the inputs pulled so far, under their own indexes.
      && (forall i :: 0 <= i < pending.nextIndex ==> input(i).Some?)
      && Shows(input, pending.entries)
      && (exhausted ==> input(pending.nextIndex).None?)
         // The driver gives its sender up only when it stops submitting.
      && (!sender ==> exhausted || aborted)
      && (aborted ==> !sender)
      && (aborted ==> forall i :: i in pending.entries ==> pending.entries[i].result == Some(WORKER_PANIC))
      && (finished ==> pending.inFlight == 0 && (exhausted || aborted))
      && (!workers.environment.Forging? ==> Tracked())
    }

    ghost predicate Tracked()
      reads this, pending, workers
    {
      !aborted && Settles(input, workers.lint, pending.entries, workers.owed, workers.environment.Losing?)
    }

    constructor (input: nat -> Option<Source>, lint: Source -> LintOutcome, window: nat, environment: Environment)
      requires 0 < window
      ensures Valid() && fresh(pending) && fresh(workers)
      ensures this.input == input && workers.lint == lint && workers.environment == environment
      ensures pending.maxInFlight == window && pending.nextExpected == 0
      ensures sender && !exhausted && !aborted && !finished
    {
      this.input := input;
      pending := new PendingBatch(window);
      workers := new Workers(lint, environment);
      sender, exhausted, aborted, finished := true, false, false, false;
    }

    /** Put the next input into the window and hand it to a worker. Returns
        false when there is no sender left to give to the worker. */
    method SubmitSource(source: Source) returns (spawned: bool)
      requires Valid() && !finished && !exhausted && !aborted && pending.CanSubmit()
      requires input(pending.nextIndex) == Some(source)
      modifies pending, workers
      ensures Valid() && spawned == sender
      ensures pending.nextExpected == old(pending.nextExpected)
      ensures pending.inFlight == old(pending.inFlight) + 1
    {
      SubmittingSettles(input, workers.lint, pending.entries, workers.owed, workers.environment.Losing?,
                        pending.nextIndex, source);
      var index := pending.Submit(source.path);
      if !sender {
        return false;
      }
      workers.Spawn(index, source);
      return true;
    }

    method Refill()
      requires Valid() && !finished
      modifies this`exhausted, pending, workers
      ensures Valid()
      ensures pending.nextExpected == old(pending.nextExpected)
      ensures exhausted || aborted || pending.inFlight == pending.maxInFlight
      ensures aborted ==> pending.nextIndex == old(pending.nextIndex)
    {
      while pending.CanSubmit() && !exhausted && !aborted
        invariant Valid()
        invariant pending.nextExpected == old(pending.nextExpected)
        invariant aborted ==> pending.nextIndex == old(pending.nextIndex)
        modifies this`exhausted, pending, workers
        decreases !exhausted, pending.maxInFlight - pending.inFlight
      {
        var next := input(pending.nextIndex);
        if next.None? {
          exhausted := true;
          break;
        }
        var spawned := SubmitSource(next.value);
        if !spawned {
          break;
        }
      }
    }

    method CloseInput()
      requires Valid() && !finished
      modifies this`sender
      ensures Valid()
      ensures sender == (old(sender) && !exhausted)
    {
      if exhausted {
        sender := false;
      }
    }

    /** Returns false when the receive never returns. */
    method ReceiveCompletion() returns (returned: bool)
      requires Valid() && !finished && pending.inFlight > 0
      requires pending.nextExpected in Unresolved(pending.entries)
      modifies this`sender, this`aborted, pending`entries, workers
      ensures Valid() && (workers.environment.Faithful? ==> returned)
      ensures sender ==> old(sender)
      ensures old(aborted) ==> aborted
      ensures !returned ==> sender && workers.running == map[] && workers.queue == []
      ensures returned ==> Unresolved(pending.entries) < Unresolved(old(pending.entries))
    {
      ghost var entries, owed := pending.entries, workers.owed;
      assert !workers.environment.Forging? ==> pending.nextExpected in workers.owed;
      var received := workers.Receive(sender);
      match received
      case Message(completed) =>
        var error := pending.Complete(completed);
        if error.Some? {
          pending.FailProtocol();
          sender := false;
          aborted := true;
          assert Unresolved(pending.entries) == {};
        } else {
          CompletingSettles(input, workers.lint, entries, owed, workers.environment.Losing?,
                            completed.index, completed.result);
        }
        returned := true;
      case Disconnected =>
        pending.SynthesizeMissing();
        MissingSettles(input, workers.lint, entries, owed, pending.entries);
        returned := true;
      case Hangs =>
        returned := false;
    }

    /** `result` stands for input number `index`; after a protocol error it is a
        worker panic. */
    ghost predicate YieldsFront(result: BatchResult, index: nat)
      reads this
    {
      && input(index).Some?
      && StandsFor(result, index, input(index).value, workers.lint, workers.environment)
      && (aborted ==> result.result == WORKER_PANIC)
    }

    /** The entry at the front of the window, if its result is in. */
    method TakeReady() returns (ready: Option<BatchResult>)
      requires Valid() && !finished
      modifies pending
      ensures Valid() && pending.nextIndex == old(pending.nextIndex)
      ensures ready.Some? ==>
                && YieldsFront(ready.value, old(pending.nextExpected))
                && pending.nextExpected == old(pending.nextExpected) + 1
      ensures ready.None? ==>
                && pending.entries == old(pending.entries)
                && pending.nextExpected == old(pending.nextExpected)
                && pending.inFlight == old(pending.inFlight)
      ensures ready.None? && pending.inFlight > 0 ==> pending.nextExpected in Unresolved(pending.entries)
    {
      ghost var before := pending.entries;
      ready := pending.TakeReady();
      assert Unresolved(pending.entries) == Unresolved(before);
    }

    /** The loop of `NextResult`: wait until the front entry has its result, or
        nothing is in flight any more. */
    method AwaitFront() returns (step: Step)
      requires Valid() && !finished
      requires exhausted || aborted || pending.inFlight == pending.maxInFlight
      requires exhausted ==> !sender
      modifies this`sender, this`aborted, this`finished, pending, workers
      ensures Valid() && (step.Done? <==> finished)
      ensures step.Yield? ==> YieldsFront(step.result, old(pending.nextExpected))
      ensures step.Yield? ==> pending.nextExpected == old(pending.nextExpected) + 1
      ensures !step.Yield? ==> pending.nextExpected == old(pending.nextExpected)
      ensures old(aborted) ==> aborted
      ensures pending.nextIndex == old(pending.nextIndex)
      ensures step.Hung? ==>
                && !workers.environment.Faithful? && sender && !exhausted
                && workers.running == map[] && workers.queue == []
    {
      ghost var front, pulled := pending.nextExpected, pending.nextIndex;
      while true
        invariant Valid() && !finished
        invariant pending.nextExpected == front && pending.nextIndex == pulled
        invariant old(aborted) ==> aborted
        invariant exhausted || aborted || pending.inFlight == pending.maxInFlight
        invariant exhausted ==> !sender
        modifies this`sender, this`aborted, this`finished, pending, workers
        decreases Unresolved(pending.entries)
      {
        var ready := TakeReady();
        if ready.Some? {
          return Yield(ready.value);
        }
        if pending.inFlight == 0 {
          finished := true;
          return Done;
        }
        var returned := ReceiveCompletion();
        if !returned {
          return Hung;
        }
      }
    }

    method NextResult() returns (step: Step)
      requires Valid()
      modifies this, pending, workers
      ensures Valid()
      // Results come in input order, each under the index and path of its input.
      ensures step.Yield? ==> YieldsFront(step.result, old(pending.nextExpected)) && !old(finished)
      ensures step.Yield? ==> pending.nextExpected == old(pending.nextExpected) + 1
      ensures !step.Yield? ==> pending.nextExpected == old(pending.nextExpected)
      // The end is reported once everything pulled has been yielded, and for good.
      ensures step.Done? <==> finished
      ensures old(finished) ==> finished
      ensures finished ==> pending.nextExpected == pending.nextIndex
      ensures finished && !aborted ==> input(pending.nextExpected).None?
      // A protocol error stops the input for good.
      ensures old(aborted) ==> aborted && pending.nextIndex == old(pending.nextIndex)
      // The driver hangs only when a worker was lost while it kept its own sender.
      ensures step.Hung? ==>
                && !workers.environment.Faithful? && sender && !exhausted
                && workers.running == map[] && workers.queue == []
    {
      if finished {
        return Done;
      }
      Refill();
      CloseInput();
      step := AwaitFront();
    }
  }

  /** `result` is the one for input number `index`: under its path and, unless
      completions are forged, with its lint result or, when its worker may be lost, a
      worker panic. */
  ghost predicate StandsFor(
    result: BatchResult, index: nat, source: Source, lint: Source -> LintOutcome, environment: Environment)
  {
    && result.index == index && result.path == source.path
    && match environment
       case Faithful => result.result == lint(source)
       case Losing => result.result == lint(source) || result.result == WORKER_PANIC
       case Forging => true
  }

  /** Draining the whole batch over a finite input. In a faithful environment
      every interleaving produces what the sequential loop produces, and the
      drain always comes to an end. One that only loses workers never aborts the
      batch, and each result is the lint result or a worker panic. In any environment
      the results are in input order under the right paths, and a batch that ends
      without a protocol error has yielded every input exactly once. */
  method LintBatch(inputs: seq<Source>, lint: Source -> LintOutcome, window: nat, environment: Environment)
    returns (results: seq<BatchResult>, hung: bool, aborted: bool)
    requires 0 < window
    ensures environment.Faithful? ==> !hung && !aborted && results == SequentialMap(lint, inputs)
    ensures environment.Faithful? ==>
              && |results| == |inputs|
              && forall i :: 0 <= i < |inputs| ==> results[i] == BatchResult(i, inputs[i].path, lint(inputs[i]))
    ensures !environment.Forging? ==> !aborted
    ensures |results| <= |inputs|
    ensures forall i :: 0 <= i < |results| ==> results[i].index == i && results[i].path == inputs[i].path
    ensures environment.Losing? ==> forall i :: 0 <= i < |results| ==>
              results[i].result == lint(inputs[i]) || results[i].result == Failure(WorkerPanic)
    ensures !hung && !aborted ==> |results| == |inputs|
  {
    var input := (k: nat) => if k < |inputs| then Some(inputs[k]) else None;
    var driver := new BatchDriver(input, lint, window, environment);
    results, hung := [], false;
    while !driver.finished && !hung
      invariant driver.Valid() && fresh(driver) && fresh(driver.pending) && fresh(driver.workers)
      invariant driver.input == input && driver.workers.lint == lint && driver.workers.environment == environment
      invariant driver.pending.nextExpected == |results| <= |inputs|
      invariant forall i :: 0 <= i < |results| ==> StandsFor(results[i], i, inputs[i], lint, environment)
      invariant driver.finished && !driver.aborted ==> input(|results|).None?
      invariant hung ==> !environment.Faithful?
      decreases |inputs| - |results|, !driver.finished, !hung
    {
      var step := driver.NextResult();
      match step
      case Yield(result) => results := results + [result];
      case Done =>
      case Hung => hung := true;
    }
    aborted := driver.aborted;
  }
}
