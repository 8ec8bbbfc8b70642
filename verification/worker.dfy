/**
 * The conversion worker: create the output directory, scan for HEIC files
 * without a JPEG, convert them one at a time and report every step on the
 * message channel.
 *
 * `os.makedirs` and the image conversion are oracles: the first is one
 * outcome for the run, the second an outcome per task (the text of the
 * exception when it fails).
 */
module Worker {
  import opened PyStr
  import opened PyPath
  import opened Discovery
  import opened Channel

  /** The result of a call that may raise: `Pass`, or `Fail` with the exception's text. */
  datatype Outcome = Pass | Fail(reason: string)

  function SetupErrorText(reason: string): string {
    "Failed to create output directory: " + reason
  }

  function FoundText(total: nat): string {
    "Found " + NatToString(total) + " HEIC file(s) without JPEG in output folder."
  }

  function StatusText(idx: nat, total: nat, input: string): string {
    "Converting (" + NatToString(idx) + "/" + NatToString(total) + "): " + Basename(input)
  }

  function ConvertedText(output: string): string {
    "Converted: " + Basename(output)
  }

  function ConvertErrorText(input: string, reason: string): string {
    "Error converting " + input + ": " + reason
  }

  function DoneText(total: nat): string {
    "Conversion complete. " + NatToString(total) + " file(s) processed."
  }

  /** The message that follows an attempt: `info` when it succeeded, `error` when it raised. */
  function ResultMessage(t: Task, result: Outcome): Message {
    match result
    case Pass => Message(Info, ConvertedText(t.output))
    case Fail(reason) => Message(Error, ConvertErrorText(t.input, reason))
  }

  /** The messages of the first `|tasks|` iterations of the conversion loop. */
  function ConvertMessages(tasks: seq<Task>, total: nat, convert: Task -> Outcome): seq<Message> {
    if tasks == [] then []
    else
      var t := tasks[|tasks| - 1];
      ConvertMessages(tasks[..|tasks| - 1], total, convert)
        + [Message(Status, StatusText(|tasks|, total, t.input)), ResultMessage(t, convert(t))]
  }

  /** Everything `conversion_worker` puts on the queue, given the walk, the snapshot and the two oracles. */
  function WorkerMessages(walk: seq<WalkEntry>, outDir: string, existing: set<string>,
                          mkdir: Outcome, convert: Task -> Outcome): seq<Message>
  {
    match mkdir
    case Fail(reason) => [Message(Error, SetupErrorText(reason))]
    case Pass =>
      var tasks := Collect(walk, outDir, existing);
      [Message(Info, FoundText(|tasks|))] + ConvertMessages(tasks, |tasks|, convert)
        + [Message(Done, DoneText(|tasks|))]
  }

  /** The worker, pushing its messages onto the shared queue in order. */
  method ConversionWorker(walk: seq<WalkEntry>, outDir: string, existing: set<string>,
                          mkdir: Outcome, convert: Task -> Outcome, queue: MessageQueue)
    modifies queue
    ensures queue.items == old(queue.items) + WorkerMessages(walk, outDir, existing, mkdir, convert)
  {
    if mkdir.Fail? {
      queue.Put(Message(Error, SetupErrorText(mkdir.reason)));
      return;
    }
    var toConvert := CollectHeicWithoutJpeg(walk, outDir, existing);
    var total := |toConvert|;
    queue.Put(Message(Info, FoundText(total)));
    ConvertEach(toConvert, convert, queue);
    queue.Put(Message(Done, DoneText(total)));
    WorkerMessagesOnPass(walk, outDir, existing, mkdir, convert);
  }

  /** The loop of `conversion_worker`: for each task, a `status`, the conversion, and its result. */
  method ConvertEach(toConvert: seq<Task>, convert: Task -> Outcome, queue: MessageQueue)
    modifies queue
    ensures queue.items == old(queue.items) + ConvertMessages(toConvert, |toConvert|, convert)
  {
    var total := |toConvert|;
    ghost var start := queue.items;
    assert toConvert[..0] == [];
    var idx := 1;
    while idx <= total
      invariant 1 <= idx <= total + 1
      invariant queue.items == start + ConvertMessages(toConvert[..idx - 1], total, convert)
    {
      var t := toConvert[idx - 1];
      ghost var before := queue.items;
      var status := Message(Status, StatusText(idx, total, t.input));
      queue.Put(status);
      var result := convert(t);
      var report: Message;
      match result {
        case Pass =>
          report := Message(Info, ConvertedText(t.output));
        case Fail(reason) =>
          report := Message(Error, ConvertErrorText(t.input, reason));
      }
      queue.Put(report);
      assert report == ResultMessage(t, result);
      ConvertStep(toConvert, idx - 1, total, convert);
      idx := idx + 1;
    }
    assert toConvert[..idx - 1] == toConvert;
  }

  /** After a successful directory creation, the messages are the count, the loop's messages and `done`. */
  lemma WorkerMessagesOnPass(walk: seq<WalkEntry>, outDir: string, existing: set<string>,
                             mkdir: Outcome, convert: Task -> Outcome)
    requires mkdir.Pass?
    ensures var tasks := Collect(walk, outDir, existing);
      WorkerMessages(walk, outDir, existing, mkdir, convert)
      == [Message(Info, FoundText(|tasks|))] + ConvertMessages(tasks, |tasks|, convert)
         + [Message(Done, DoneText(|tasks|))]
  {
  }

  /** One more iteration of the loop adds the `status` and the result of the next task. */
  lemma ConvertStep(tasks: seq<Task>, i: nat, total: nat, convert: Task -> Outcome)
    requires i < |tasks|
    ensures ConvertMessages(tasks[..i + 1], total, convert)
      == ConvertMessages(tasks[..i], total, convert)
         + [Message(Status, StatusText(i + 1, total, tasks[i].input)), ResultMessage(tasks[i], convert(tasks[i]))]
  {
    assert tasks[..i + 1][..i] == tasks[..i];
  }

  // ----- The shape of the message sequence -----

  /**
   * The conversion loop emits two messages per task, in task order: a
   * `status` naming the task as `(i/total)`, then the task's result.
   */
  lemma {:induction false} ConvertMessagesShape(tasks: seq<Task>, total: nat, convert: Task -> Outcome)
    ensures |ConvertMessages(tasks, total, convert)| == 2 * |tasks|
    ensures forall i :: 0 <= i < |tasks| ==>
      ConvertMessages(tasks, total, convert)[2 * i] == Message(Status, StatusText(i + 1, total, tasks[i].input))
      && ConvertMessages(tasks, total, convert)[2 * i + 1] == ResultMessage(tasks[i], convert(tasks[i]))
  {
    if tasks != [] {
      var n := |tasks| - 1;
      ConvertMessagesShape(tasks[..n], total, convert);
      forall i | 0 <= i < n
        ensures tasks[..n][i] == tasks[i]
      {
      }
    }
  }

  /**
   * A failed directory creation yields exactly one `error` message and
   * nothing else; otherwise the run yields `2 * total + 2` messages: one
   * `info` with the count, a `status` and a result for each task in order,
   * and a final `done` with the count.
   */
  lemma WorkerShape(walk: seq<WalkEntry>, outDir: string, existing: set<string>,
                    mkdir: Outcome, convert: Task -> Outcome)
    ensures var msgs := WorkerMessages(walk, outDir, existing, mkdir, convert);
      mkdir.Fail? ==> msgs == [Message(Error, SetupErrorText(mkdir.reason))]
    ensures var msgs := WorkerMessages(walk, outDir, existing, mkdir, convert);
      var tasks := Collect(walk, outDir, existing);
      var total := |tasks|;
      mkdir.Pass? ==>
        |msgs| == 2 * total + 2
        && msgs[0] == Message(Info, FoundText(total))
        && (forall i :: 0 <= i < total ==>
              msgs[2 * i + 1] == Message(Status, StatusText(i + 1, total, tasks[i].input))
              && msgs[2 * i + 2] == ResultMessage(tasks[i], convert(tasks[i])))
        && msgs[2 * total + 1] == Message(Done, DoneText(total))
  {
    if mkdir.Pass? {
      var tasks := Collect(walk, outDir, existing);
      var total := |tasks|;
      var body := ConvertMessages(tasks, total, convert);
      ConvertMessagesShape(tasks, total, convert);
      var msgs := [Message(Info, FoundText(total))] + body + [Message(Done, DoneText(total))];
      assert forall j :: 0 <= j < |body| ==> msgs[j + 1] == body[j];
    }
  }

  /** How many messages of `msgs` carry the tag `k`. */
  function CountKind(msgs: seq<Message>, k: Kind): nat {
    if msgs == [] then 0
    else CountKind(msgs[..|msgs| - 1], k) + (if msgs[|msgs| - 1].kind == k then 1 else 0)
  }

  /** How many of `tasks` the conversion oracle fails. */
  function FailedCount(tasks: seq<Task>, convert: Task -> Outcome): nat {
    if tasks == [] then 0
    else FailedCount(tasks[..|tasks| - 1], convert) + (if convert(tasks[|tasks| - 1]).Fail? then 1 else 0)
  }

  lemma {:induction false} CountKindAppend(a: seq<Message>, b: seq<Message>, k: Kind)
    ensures CountKind(a + b, k) == CountKind(a, k) + CountKind(b, k)
  {
    if b != [] {
      assert (a + b)[..|a + b| - 1] == a + b[..|b| - 1];
      CountKindAppend(a, b[..|b| - 1], k);
    } else {
      assert a + b == a;
    }
  }

  /**
   * Per-file failures do not stop the loop: every task is attempted once
   * (one `status` each), each attempt has exactly one result message, the
   * failures are exactly the `error` messages, and no `done` is emitted.
   */
  lemma {:induction false} ConvertMessagesCounts(tasks: seq<Task>, total: nat, convert: Task -> Outcome)
    ensures var msgs := ConvertMessages(tasks, total, convert);
      CountKind(msgs, Status) == |tasks|
      && CountKind(msgs, Error) == FailedCount(tasks, convert)
      && CountKind(msgs, Info) == |tasks| - FailedCount(tasks, convert)
      && CountKind(msgs, Done) == 0
  {
    if tasks != [] {
      var n := |tasks| - 1;
      var t := tasks[n];
      ConvertMessagesCounts(tasks[..n], total, convert);
      var step := [Message(Status, StatusText(|tasks|, total, t.input)), ResultMessage(t, convert(t))];
      CountKindAppend(ConvertMessages(tasks[..n], total, convert), step, Status);
      CountKindAppend(ConvertMessages(tasks[..n], total, convert), step, Error);
      CountKindAppend(ConvertMessages(tasks[..n], total, convert), step, Info);
      CountKindAppend(ConvertMessages(tasks[..n], total, convert), step, Done);
      CountPair(step[0], step[1], Status);
      CountPair(step[0], step[1], Error);
      CountPair(step[0], step[1], Info);
      CountPair(step[0], step[1], Done);
      assert FailedCount(tasks[..n], convert) <= n by {
        FailedCountBound(tasks[..n], convert);
      }
    }
  }

  lemma CountPair(a: Message, b: Message, k: Kind)
    ensures CountKind([a, b], k) == (if a.kind == k then 1 else 0) + (if b.kind == k then 1 else 0)
  {
    assert [a, b][..1] == [a];
    assert [a][..0] == [];
    assert CountKind([a], k) == (if a.kind == k then 1 else 0);
  }

  lemma {:induction false} FailedCountBound(tasks: seq<Task>, convert: Task -> Outcome)
    ensures FailedCount(tasks, convert) <= |tasks|
  {
    if tasks != [] {
      FailedCountBound(tasks[..|tasks| - 1], convert);
    }
  }

  /**
   * In a run whose directory creation succeeded there is exactly one `done`,
   * it comes last, and the count it reports is the number of attempts (the
   * `status` messages), not the number of successes.
   */
  lemma DoneReportsAttempts(walk: seq<WalkEntry>, outDir: string, existing: set<string>,
                            mkdir: Outcome, convert: Task -> Outcome)
    requires mkdir.Pass?
    ensures var msgs := WorkerMessages(walk, outDir, existing, mkdir, convert);
      var tasks := Collect(walk, outDir, existing);
      CountKind(msgs, Done) == 1
      && msgs[|msgs| - 1] == Message(Done, DoneText(CountKind(msgs, Status)))
      && CountKind(msgs, Status) == |tasks|
      && CountKind(msgs, Error) == FailedCount(tasks, convert)
  {
    var tasks := Collect(walk, outDir, existing);
    var total := |tasks|;
    var head := [Message(Info, FoundText(total))];
    var body := ConvertMessages(tasks, total, convert);
    var tail := [Message(Done, DoneText(total))];
    ConvertMessagesCounts(tasks, total, convert);
    CountKindAppend(head, body, Done);
    CountKindAppend(head + body, tail, Done);
    CountKindAppend(head, body, Status);
    CountKindAppend(head + body, tail, Status);
    CountKindAppend(head, body, Error);
    CountKindAppend(head + body, tail, Error);
    assert head[..0] == [];
    assert tail[..0] == [];
  }

  /**
   * A failed directory creation reports one error and nothing else: no
   * `info`, no `status`, no `done`.
   */
  lemma SetupFailureIsSilentOtherwise(walk: seq<WalkEntry>, outDir: string, existing: set<string>,
                                      mkdir: Outcome, convert: Task -> Outcome)
    requires mkdir.Fail?
    ensures var msgs := WorkerMessages(walk, outDir, existing, mkdir, convert);
      CountKind(msgs, Error) == 1 && CountKind(msgs, Info) == 0
      && CountKind(msgs, Status) == 0 && CountKind(msgs, Done) == 0
  {
    var msgs := WorkerMessages(walk, outDir, existing, mkdir, convert);
    assert msgs[..0] == [];
  }

  /**
   * When the output directory cannot be created, discovery never runs: the
   * messages do not depend on the tree, the snapshot of existing files or
   * the converter.
   */
  lemma SetupFailureSkipsDiscovery(walk1: seq<WalkEntry>, existing1: set<string>, convert1: Task -> Outcome,
                                   walk2: seq<WalkEntry>, existing2: set<string>, convert2: Task -> Outcome,
                                   outDir: string, reason: string)
    ensures WorkerMessages(walk1, outDir, existing1, Fail(reason), convert1)
         == WorkerMessages(walk2, outDir, existing2, Fail(reason), convert2)
  {
  }
}
