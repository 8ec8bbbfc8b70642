/**
 * The interface side of the converter: the window state that
 * `build_gui` keeps (the two folder fields, the status line, the log and
 * the three buttons), the start validation, and the polling step that
 * drains the message queue into that state.
 *
 * `os.path.isdir` is an oracle; the directory of the script is a given
 * string; starting the worker thread is the `Launched` result.
 */
module Controller {
  import opened PyStr
  import opened PyPath
  import opened SeqFilter
  import opened Discovery
  import opened Channel
  import opened Worker

  const DefaultInputName: string := "folder_heic"
  const DefaultOutputName: string := "folder_jpeg"
  const IdleText: string := "Idle"
  const StartingText: string := "Starting conversion..."

  /** What the polling step changes: the status line, the log and whether each button is enabled. */
  datatype View = View(status: string, log: string, browseIn: bool, browseOut: bool, start: bool)

  /** The outcome of pressing "Start Conversion": rejected, or a worker launched on two folders. */
  datatype StartResult = Rejected | Launched(input: string, output: string)

  // ----- The polling step, on values -----

  /** The effect of one message on the window. */
  function Apply(v: View, m: Message): View {
    match m.kind
    case Done => v.(status := m.text, browseIn := true, browseOut := true, start := true)
    case _ => v.(status := m.text, log := v.log + m.text + "\n")
  }

  /** The window after handling `msgs` front to back. */
  function Drain(v: View, msgs: seq<Message>): View
    decreases msgs
  {
    if msgs == [] then v else Drain(Apply(v, msgs[0]), msgs[1..])
  }

  /** All buttons enabled. */
  predicate Enabled(v: View) {
    v.browseIn && v.browseOut && v.start
  }

  /** All buttons disabled. */
  predicate Disabled(v: View) {
    !v.browseIn && !v.browseOut && !v.start
  }

  /** Some message of `msgs` is a `done`. */
  predicate HasDone(msgs: seq<Message>) {
    exists i :: 0 <= i < |msgs| && msgs[i].kind == Done
  }

  function NotDone(): Message -> bool {
    (m: Message) => m.kind != Done
  }

  function LogLine(): Message -> string {
    (m: Message) => m.text + "\n"
  }

  /** The lines of `lines` written one after another. */
  function Concat(lines: seq<string>): string {
    if lines == [] then [] else lines[0] + Concat(lines[1..])
  }

  /** The text the log gains from `msgs`: the text and a newline of every message that is not a `done`. */
  function LogText(msgs: seq<Message>): string {
    Concat(FilterMap(msgs, NotDone(), LogLine()))
  }

  /**
   * Draining `msgs` appends to the log exactly the lines of the messages
   * that are not `done`, in queue order; nothing already in the log changes.
   */
  lemma {:induction false} DrainLog(v: View, msgs: seq<Message>)
    ensures Drain(v, msgs).log == v.log + LogText(msgs)
    decreases msgs
  {
    if msgs != [] {
      DrainLog(Apply(v, msgs[0]), msgs[1..]);
      if msgs[0].kind == Done {
        assert FilterMap(msgs, NotDone(), LogLine()) == FilterMap(msgs[1..], NotDone(), LogLine());
      } else {
        assert FilterMap(msgs, NotDone(), LogLine()) == [msgs[0].text + "\n"] + FilterMap(msgs[1..], NotDone(), LogLine());
        assert LogText(msgs) == msgs[0].text + "\n" + LogText(msgs[1..]);
      }
    }
  }

  /** The status line shows the text of the last message handled, whatever its tag. */
  lemma {:induction false} DrainStatus(v: View, msgs: seq<Message>)
    ensures Drain(v, msgs).status == if msgs == [] then v.status else msgs[|msgs| - 1].text
    decreases msgs
  {
    if msgs != [] {
      DrainStatus(Apply(v, msgs[0]), msgs[1..]);
      if |msgs| > 1 {
        assert msgs[1..][|msgs| - 2] == msgs[|msgs| - 1];
      }
    }
  }

  /**
   * A `done` enables all three buttons; no other message touches them, so
   * without a `done` they keep their state.
   */
  lemma {:induction false} DrainButtons(v: View, msgs: seq<Message>)
    ensures HasDone(msgs) ==> Enabled(Drain(v, msgs))
    ensures !HasDone(msgs) ==>
      Drain(v, msgs).browseIn == v.browseIn && Drain(v, msgs).browseOut == v.browseOut
      && Drain(v, msgs).start == v.start
    decreases msgs
  {
    if msgs != [] {
      var w := Apply(v, msgs[0]);
      DrainButtons(w, msgs[1..]);
      if msgs[0].kind == Done {
        EnabledStays(w, msgs[1..]);
      }
      if HasDone(msgs) && !HasDone(msgs[1..]) {
        var i :| 0 <= i < |msgs| && msgs[i].kind == Done;
        if i > 0 {
          assert msgs[1..][i - 1].kind == Done;
        }
      }
      if HasDone(msgs[1..]) {
        var i :| 0 <= i < |msgs[1..]| && msgs[1..][i].kind == Done;
        assert msgs[i + 1].kind == Done;
      }
      if !HasDone(msgs) {
        assert msgs[0].kind != Done;
      }
    }
  }

  /** Once the buttons are enabled, handling more messages leaves them enabled. */
  lemma {:induction false} EnabledStays(v: View, msgs: seq<Message>)
    requires Enabled(v)
    ensures Enabled(Drain(v, msgs))
    decreases msgs
  {
    if msgs != [] {
      EnabledStays(Apply(v, msgs[0]), msgs[1..]);
    }
  }

  /**
   * Polling in several rounds handles the messages exactly as one round
   * over all of them would: the result does not depend on when the timer
   * fires relative to the worker.
   */
  lemma {:induction false} DrainConcat(v: View, a: seq<Message>, b: seq<Message>)
    ensures Drain(v, a + b) == Drain(Drain(v, a), b)
    decreases a
  {
    if a != [] {
      assert (a + b)[0] == a[0];
      assert (a + b)[1..] == a[1..] + b;
      DrainConcat(Apply(v, a[0]), a[1..], b);
    } else {
      assert a + b == b;
    }
  }

  /**
   * Tk ignores a press on a disabled button, so after a launch (all buttons
   * disabled) the Start button can be pressed again exactly when a `done`
   * has been handled.
   */
  lemma StartBlockedUntilDone(v: View, msgs: seq<Message>)
    requires Disabled(v)
    ensures Drain(v, msgs).start <==> HasDone(msgs)
    ensures Drain(v, msgs).browseIn <==> HasDone(msgs)
    ensures Drain(v, msgs).browseOut <==> HasDone(msgs)
  {
    DrainButtons(v, msgs);
  }

  // ----- Start validation, on values -----

  /**
   * The decision `start_conversion` takes from the two fields: reject an
   * input that is empty after stripping or is not a directory; otherwise
   * launch on the stripped input and the stripped output, with an empty
   * output replaced by `folder_jpeg` in the script's directory.
   */
  function StartDecision(inputText: string, outputText: string, isDir: string -> bool, scriptDir: string): StartResult {
    var inp := Strip(inputText);
    var out := Strip(outputText);
    if inp == [] || !isDir(inp) then Rejected
    else if out == [] then Launched(inp, Join(scriptDir, DefaultOutputName))
    else Launched(inp, out)
  }

  /**
   * A start is rejected exactly when the input field holds only whitespace
   * or its stripped text is not a directory. A launched worker never gets an
   * empty folder: the input is a directory without surrounding whitespace;
   * the output is the stripped output field when that has any text, and
   * otherwise a path whose last component is `folder_jpeg`.
   */
  lemma StartValidation(inputText: string, outputText: string, isDir: string -> bool, scriptDir: string)
    ensures var r := StartDecision(inputText, outputText, isDir, scriptDir);
      (r.Rejected? <==> (forall i :: 0 <= i < |inputText| ==> IsSpace(inputText[i])) || !isDir(Strip(inputText)))
      && (r.Launched? ==>
            r.input == Strip(inputText) && isDir(r.input)
            && r.input != [] && !IsSpace(r.input[0]) && !IsSpace(r.input[|r.input| - 1])
            && r.output != []
            && (Strip(outputText) != [] ==> r.output == Strip(outputText))
            && (Strip(outputText) == [] ==>
                  r.output == Join(scriptDir, DefaultOutputName) && Basename(r.output) == DefaultOutputName))
  {
    StripEmptyIff(inputText);
    StripTrimmed(inputText);
    if Strip(outputText) == [] {
      DefaultOutputNameIsBase();
      JoinBasename(scriptDir, DefaultOutputName);
      assert |Join(scriptDir, DefaultOutputName)| >= |DefaultOutputName|;
    }
  }

  lemma DefaultOutputNameIsBase()
    ensures Sep !in DefaultOutputName
  {
    assert forall i :: 0 <= i < |DefaultOutputName| ==> DefaultOutputName[i] != Sep;
  }

  // ----- The window -----

  /** The state `build_gui` keeps in its Tk variables and widgets, and the queue it shares with the worker. */
  class ConverterWindow {
    var inputText: string
    var outputText: string
    var status: string
    var log: string
    var browseInEnabled: bool
    var browseOutEnabled: bool
    var startEnabled: bool
    const queue: MessageQueue

    /** The part of the state the polling step changes. */
    function CurrentView(): View
      reads this
    {
      View(status, log, browseInEnabled, browseOutEnabled, startEnabled)
    }

    /** The window as first shown: default folders under the application directory, status "Idle", an empty log and queue. */
    constructor (appDir: string)
      ensures inputText == Join(appDir, DefaultInputName) && outputText == Join(appDir, DefaultOutputName)
      ensures CurrentView() == View(IdleText, [], true, true, true)
      ensures fresh(queue) && queue.items == []
    {
      inputText := Join(appDir, DefaultInputName);
      outputText := Join(appDir, DefaultOutputName);
      status := IdleText;
      log := [];
      browseInEnabled := true;
      browseOutEnabled := true;
      startEnabled := true;
      queue := new MessageQueue();
    }

    /**
     * "Browse..." for the input folder, callable only while its button is
     * enabled: a chosen folder replaces the field; a cancelled dialog (empty
     * answer) changes nothing.
     */
    method BrowseInput(chosen: string)
      requires browseInEnabled
      modifies this
      ensures inputText == (if chosen != [] then chosen else old(inputText))
      ensures outputText == old(outputText) && CurrentView() == old(CurrentView())
    {
      if chosen != [] {
        inputText := chosen;
      }
    }

    /**
     * "Browse..." for the output folder, callable only while its button is
     * enabled: a chosen folder replaces the field; a cancelled dialog changes
     * nothing.
     */
    method BrowseOutput(chosen: string)
      requires browseOutEnabled
      modifies this
      ensures outputText == (if chosen != [] then chosen else old(outputText))
      ensures inputText == old(inputText) && CurrentView() == old(CurrentView())
    {
      if chosen != [] {
        outputText := chosen;
      }
    }

    /**
     * "Start Conversion", callable only while its button is enabled, so two
     * workers never run at once. A rejected start changes nothing (the error
     * dialog is the `Rejected` result). A valid start writes a defaulted
     * output folder back into its field, disables the three buttons and
     * queues "Starting conversion..." before the worker is launched.
     */
    method StartConversion(isDir: string -> bool, scriptDir: string) returns (r: StartResult)
      requires startEnabled
      modifies this, queue
      ensures r == StartDecision(old(inputText), old(outputText), isDir, scriptDir)
      ensures r.Rejected? ==> unchanged(this) && unchanged(queue)
      ensures r.Launched? ==> inputText == old(inputText)
      ensures r.Launched? ==> outputText == (if Strip(old(outputText)) == [] then r.output else old(outputText))
      ensures r.Launched? ==> CurrentView() == old(CurrentView()).(browseIn := false, browseOut := false, start := false)
      ensures r.Launched? ==> queue.items == old(queue.items) + [Message(Info, StartingText)]
    {
      var inp := Strip(inputText);
      var out := Strip(outputText);
      if inp == [] || !isDir(inp) {
        return Rejected;
      }
      if out == [] {
        out := Join(scriptDir, DefaultOutputName);
        outputText := out;
      }
      browseInEnabled := false;
      browseOutEnabled := false;
      startEnabled := false;
      queue.Put(Message(Info, StartingText));
      r := Launched(inp, out);
    }

    /**
     * One run of `poll_queue`: take messages off the queue until it is
     * empty and handle each in turn. The window ends as `Drain` describes.
     */
    method PollQueue()
      modifies this, queue
      ensures queue.items == []
      ensures CurrentView() == Drain(old(CurrentView()), old(queue.items))
      ensures inputText == old(inputText) && outputText == old(outputText)
    {
      while true
        invariant Drain(CurrentView(), queue.items) == Drain(old(CurrentView()), old(queue.items))
        invariant inputText == old(inputText) && outputText == old(outputText)
        decreases |queue.items|
      {
        ghost var pending := queue.items;
        var next := queue.GetNowait();
        if next.None? {
          break;
        }
        var m := next.value;
        ghost var before := CurrentView();
        if m.kind == Status || m.kind == Info || m.kind == Error {
          status := m.text;
          log := log + m.text + "\n";
        }
        if m.kind == Done {
          status := m.text;
          browseInEnabled := true;
          browseOutEnabled := true;
          startEnabled := true;
        }
        assert CurrentView() == Apply(before, m);
        assert Drain(before, pending) == Drain(CurrentView(), queue.items);
      }
    }
  }

  // ----- A whole run, as the window sees it -----

  /**
   * After a valid start (buttons disabled) the window handles
   * "Starting conversion..." and then everything the worker sends. The
   * buttons come back exactly when the output directory could be created:
   * after a failed `os.makedirs` only an `error` arrives, no `done`, and the
   * window stays disabled. The status line ends on the `done` text or on
   * the setup error, and the log gains every line but the `done`.
   */
  lemma RunOutcome(v: View, walk: seq<WalkEntry>, outDir: string, existing: set<string>,
                   mkdir: Outcome, convert: Task -> Outcome)
    requires Disabled(v)
    ensures var msgs := [Message(Info, StartingText)] + WorkerMessages(walk, outDir, existing, mkdir, convert);
      var w := Drain(v, msgs);
      (Enabled(w) <==> mkdir.Pass?) && (Disabled(w) <==> mkdir.Fail?)
      && w.log == v.log + LogText(msgs)
      && (mkdir.Pass? ==> w.status == DoneText(|Collect(walk, outDir, existing)|))
      && (mkdir.Fail? ==> w.status == SetupErrorText(mkdir.reason)
                          && w.log == v.log + StartingText + "\n" + SetupErrorText(mkdir.reason) + "\n")
  {
    var msgs := [Message(Info, StartingText)] + WorkerMessages(walk, outDir, existing, mkdir, convert);
    DrainLog(v, msgs);
    if mkdir.Pass? {
      RunOnPass(v, walk, outDir, existing, mkdir, convert);
    } else {
      RunOnFail(v, walk, outDir, existing, mkdir.reason, convert);
    }
  }

  /** A run whose folder was created ends on its `done`: buttons enabled, status the `done` text. */
  lemma RunOnPass(v: View, walk: seq<WalkEntry>, outDir: string, existing: set<string>,
                  mkdir: Outcome, convert: Task -> Outcome)
    requires mkdir.Pass?
    ensures var msgs := [Message(Info, StartingText)] + WorkerMessages(walk, outDir, existing, mkdir, convert);
      var w := Drain(v, msgs);
      Enabled(w) && w.status == DoneText(|Collect(walk, outDir, existing)|)
  {
    var work := WorkerMessages(walk, outDir, existing, mkdir, convert);
    var msgs := [Message(Info, StartingText)] + work;
    WorkerShape(walk, outDir, existing, mkdir, convert);
    assert msgs[|msgs| - 1] == work[|work| - 1];
    assert HasDone(msgs);
    DrainButtons(v, msgs);
    DrainStatus(v, msgs);
  }

  /** A run whose folder could not be created shows the error and leaves the buttons as they were. */
  lemma RunOnFail(v: View, walk: seq<WalkEntry>, outDir: string, existing: set<string>,
                  reason: string, convert: Task -> Outcome)
    ensures var msgs := [Message(Info, StartingText)] + WorkerMessages(walk, outDir, existing, Fail(reason), convert);
      Drain(v, msgs) == v.(status := SetupErrorText(reason),
                           log := v.log + StartingText + "\n" + SetupErrorText(reason) + "\n")
  {
    var msgs := [Message(Info, StartingText)] + WorkerMessages(walk, outDir, existing, Fail(reason), convert);
    assert msgs == [Message(Info, StartingText), Message(Error, SetupErrorText(reason))];
    var w1 := Apply(v, msgs[0]);
    var w2 := Apply(w1, msgs[1]);
    assert msgs[1..][1..] == [];
    assert Drain(v, msgs) == Drain(w1, msgs[1..]) == Drain(w2, msgs[1..][1..]) == w2;
  }
}
