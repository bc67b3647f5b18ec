/** The progress display: a message with a colour cycle, and the model whose `Update` reacts
    to key presses, to the background tasks' progress messages and to animation ticks.
    Background tasks, the channel they report on and the tick timer are represented by the
    commands `Update` hands back to the terminal runtime. */
module Progress {
  import opened Form

  const CreateModule := "Cloning repo"
  const CreateTemplate := "Creating template"
  const IsDoneMessage := "Enjoy "

  /** Ticks per suffix, and ticks per full cycle of the three suffixes. */
  const Divisor: nat := 9
  const Total: nat := Divisor * 3

  /** The pipeline phase, in declaration order, so `Cloning` is the zero value. */
  datatype Step = Cloning | Templating | Done

  /** What `Update` receives: a key press (by its name), a background task's progress
      report, an animation tick, or any other message the runtime sends (a window resize,
      say). */
  datatype Msg =
    | Key(name: string)
    | Response(message: string, step: Step)
    | TickMsg
    | Other

  /** The background tasks: cloning the template repository and templating it. */
  datatype Task = CloneRepo | TemplateRepo

  /** What `Update` and `Init` hand back: nothing, quit, suspend, schedule the next tick, or
      start a background task and then both schedule a tick and wait for the task's report. */
  datatype Command =
    | NoCommand
    | Quit
    | Suspend
    | Tick
    | StartAndWait(task: Task)

  /** The report a background task sends when it finishes: cloning announces templating,
      templating announces completion (and then closes the channel). */
  function Report(task: Task): (m: Msg)
    ensures m.Response?
    ensures m.step == if task == CloneRepo then Templating else Done
  {
    match task
    case CloneRepo => Response(CreateTemplate, Templating)
    case TemplateRepo => Response(IsDoneMessage, Done)
  }

  /** The animated suffix after `tick` ticks: one, two or three dots, padded to three
      characters, the number of dots advancing every `Divisor` ticks and wrapping every
      `Total` ticks. */
  function Suffix(tick: nat): (s: string)
    ensures |s| == 3
    ensures forall i :: 0 <= i < 3 ==> (s[i] == '.' <==> i <= tick % Total / Divisor)
    ensures forall i :: 0 <= i < 3 ==> (s[i] == ' ' <==> i > tick % Total / Divisor)
  {
    if tick % Total < Divisor then ".  "
    else if tick % Total < Divisor * 2 then ".. "
    else "..."
  }

  /** The text shown while `step` is in progress, before its suffix. */
  function Prefix(step: Step): string
    requires step != Done
  {
    if step == Cloning then CreateModule else CreateTemplate
  }

  /** The message after a tick that brings the count to `tick`: the phase's prefix with the
      animated suffix while cloning or templating; once done, the message is kept. */
  function TickMessage(step: Step, tick: nat, current: string): (m: string)
    ensures step == Done ==> m == current
    ensures step != Done ==> |m| == |Prefix(step)| + 3
    ensures step != Done ==> m[..|Prefix(step)|] == Prefix(step) && m[|Prefix(step)|..] == Suffix(tick)
  {
    match step
    case Cloning => CreateModule + Suffix(tick)
    case Templating => CreateTemplate + Suffix(tick)
    case Done => current
  }

  /** The animation repeats every `Total` ticks. */
  lemma TickMessagePeriodic(step: Step, tick: nat, current: string)
    ensures TickMessage(step, tick + Total, current) == TickMessage(step, tick, current)
  {
    assert (tick + Total) % Total == tick % Total;
  }

  /** One tick moves the position within the cycle one place on, wrapping at `Total`. */
  lemma CycleStep(tick: nat)
    ensures (tick + 1) % Total == if tick % Total == Total - 1 then 0 else tick % Total + 1
  {
  }

  /** Blocks of `Divisor` ticks line up with the cycle of `Total` ticks. */
  lemma BlockInCycle(tick: nat)
    ensures tick % Total % Divisor == tick % Divisor
  {
  }

  /** The suffix stays put within each block of `Divisor` ticks and advances between blocks. */
  lemma SuffixChangesEveryDivisor(tick: nat)
    ensures (tick + 1) % Divisor != 0 ==> Suffix(tick + 1) == Suffix(tick)
    ensures (tick + 1) % Divisor == 0 ==> Suffix(tick + 1) != Suffix(tick)
  {
    CycleStep(tick);
    BlockInCycle(tick + 1);
    var q, q' := tick % Total, (tick + 1) % Total;
    if (tick + 1) % Divisor == 0 {
      assert q' / Divisor != q / Divisor;
      assert Suffix(tick + 1)[q' / Divisor] != Suffix(tick)[q' / Divisor] || Suffix(tick + 1)[q / Divisor] != Suffix(tick)[q / Divisor];
    } else {
      assert q' / Divisor == q / Divisor;
    }
  }

  /** A message together with the colour cycle it is drawn in. */
  class MessageGradient<C> {
    var message: string
    var blend: array<Color<C>>

    /** `NewMessageGradient`: `colors` stands for the blend the colour library computes for
        `message`. */
    constructor (message: string, colors: seq<Color<C>>)
      ensures this.message == message
      ensures fresh(blend) && blend[..] == colors
    {
      this.message := message;
      blend := new Color<C>[|colors|](i requires 0 <= i < |colors| => colors[i]);
    }

    /** `updateMessage`: only the text changes; the colour cycle is neither replaced nor
        resized. */
    method UpdateMessage(message: string)
      modifies this`message
      ensures this.message == message
      ensures blend == old(blend) && blend[..] == old(blend[..])
    {
      this.message := message;
    }

    /** `rotateBlend`: the colour cycle is rotated in place and the same slice kept. */
    method RotateBlend()
      modifies this`blend, blend
      ensures blend == old(blend)
      ensures blend[..] == Rotated(old(blend[..]))
      ensures message == old(message)
    {
      blend := Form.RotateBlend(blend);
    }
  }

  class Model<C> {
    var tick: nat
    var step: Step
    var gradient: MessageGradient?<C>
    /** The colour library's blend for a message, `createBlendP`. */
    const palette: string -> seq<Color<C>>

    /** The model as the form hands it to the terminal runtime: every field at its zero
        value except the palette. */
    constructor (palette: string -> seq<Color<C>>)
      ensures tick == 0 && step == Cloning && gradient == null
      ensures this.palette == palette
    {
      tick := 0;
      step := Cloning;
      gradient := null;
      this.palette := palette;
    }

    /** `Init`: the message becomes "Cloning repo." in a fresh colour cycle, the cloning
        task starts, and the runtime ticks and waits for its report; tick and step are
        left as they were. */
    method Init() returns (cmd: Command)
      modifies this`gradient
      ensures gradient != null && fresh(gradient) && fresh(gradient.blend)
      ensures gradient.message == CreateModule + "."
      ensures gradient.blend[..] == palette(CreateModule + ".")
      ensures tick == old(tick) && step == old(step)
      ensures cmd == StartAndWait(CloneRepo)
    {
      gradient := new MessageGradient(CreateModule + ".", palette(CreateModule + "."));
      cmd := StartAndWait(CloneRepo);
    }

    /** `Update`.  Keys: "ctrl+c" and "q" quit, "ctrl+z" suspends, anything else is
        ignored; none of them changes the model, and neither does any other kind of message.  A progress report replaces the message and
        its colour cycle, and copies the reported step as it is (nothing here keeps the
        steps in order); it starts templating, quits, or keeps ticking.  A tick advances the
        count by one, redraws the message for the current step and rotates the colours. */
    method Update(msg: Msg) returns (cmd: Command)
      requires gradient != null
      modifies this, gradient, gradient.blend
      ensures gradient != null
      ensures msg.Key? ==> cmd == (if msg.name == "ctrl+c" || msg.name == "q" then Quit
                                   else if msg.name == "ctrl+z" then Suspend
                                   else NoCommand)
      ensures msg.Other? ==> cmd == NoCommand
      ensures msg.Key? || msg.Other? ==> tick == old(tick) && step == old(step) && gradient == old(gradient)
      ensures msg.Key? || msg.Other? ==> gradient.message == old(gradient.message)
      ensures msg.Key? || msg.Other? ==>
        gradient.blend == old(gradient.blend) && gradient.blend[..] == old(gradient.blend[..])
      ensures msg.Response? ==> tick == old(tick) && step == msg.step
      ensures msg.Response? ==> fresh(gradient) && fresh(gradient.blend)
      ensures msg.Response? ==> gradient.message == msg.message && gradient.blend[..] == palette(msg.message)
      ensures msg.Response? ==> cmd == (if msg.step == Templating then StartAndWait(TemplateRepo)
                                        else if msg.step == Done then Quit
                                        else Tick)
      ensures msg.TickMsg? ==> tick == old(tick) + 1 && step == old(step) && gradient == old(gradient)
      ensures msg.TickMsg? ==> gradient.message == TickMessage(step, tick, old(gradient.message))
      ensures msg.TickMsg? ==> gradient.blend == old(gradient.blend)
      ensures msg.TickMsg? ==> gradient.blend[..] == Rotated(old(gradient.blend[..]))
      ensures msg.TickMsg? ==> cmd == Tick
    {
      match msg
      case Key(name) =>
        if name == "ctrl+c" || name == "q" {
          cmd := Quit;
        } else if name == "ctrl+z" {
          cmd := Suspend;
        } else {
          cmd := NoCommand;
        }
      case Response(message, reported) =>
        gradient := new MessageGradient(message, palette(message));
        step := reported;
        if step == Templating {
          cmd := StartAndWait(TemplateRepo);
        } else if step == Done {
          cmd := Quit;
        } else {
          cmd := Tick;
        }
      case TickMsg =>
        tick := tick + 1;
        if step == Cloning {
          if tick % Total < Divisor {
            gradient.UpdateMessage(CreateModule + ".  ");
          } else if tick % Total < Divisor * 2 {
            gradient.UpdateMessage(CreateModule + ".. ");
          } else {
            gradient.UpdateMessage(CreateModule + "...");
          }
        } else if step == Templating {
          if tick % Total < Divisor {
            gradient.UpdateMessage(CreateTemplate + ".  ");
          } else if tick % Total < Divisor * 2 {
            gradient.UpdateMessage(CreateTemplate + ".. ");
          } else {
            gradient.UpdateMessage(CreateTemplate + "...");
          }
        }
        gradient.RotateBlend();
        cmd := Tick;
      case Other =>
        cmd := NoCommand;
    }
  }

  /** Hands `msgs`, none of them a progress report, to `Update` one by one, recording the
      step after each: the step and the gradient object stay as they were. */
  method Feed<C>(m: Model<C>, msgs: seq<Msg>) returns (steps: seq<Step>)
    requires m.gradient != null
    requires forall i :: 0 <= i < |msgs| ==> !msgs[i].Response?
    modifies m, m.gradient, m.gradient.blend
    ensures m.gradient == old(m.gradient) && m.gradient.blend == old(m.gradient.blend)
    ensures m.step == old(m.step)
    ensures |steps| == |msgs| && forall k :: 0 <= k < |steps| ==> steps[k] == m.step
  {
    steps := [];
    for i := 0 to |msgs|
      invariant m.gradient == old(m.gradient) && m.gradient.blend == old(m.gradient.blend)
      invariant m.step == old(m.step)
      invariant |steps| == i && forall k :: 0 <= k < i ==> steps[k] == m.step
    {
      var ignored := m.Update(msgs[i]);
      steps := steps + [m.step];
    }
  }

  /** One run as the runtime drives it: `Init`, then whatever ticks, key presses and other
      messages arrive, the cloning task's report, more such messages, and the templating
      task's report.  The step after every message is recorded: it stays Cloning until the
      first report, Templating until the second, then Done; the run ends by quitting. */
  method RunPipeline<C>(palette: string -> seq<Color<C>>, before: seq<Msg>, between: seq<Msg>)
    returns (steps: seq<Step>, commands: seq<Command>)
    requires forall i :: 0 <= i < |before| ==> !before[i].Response?
    requires forall i :: 0 <= i < |between| ==> !between[i].Response?
    ensures |steps| == |before| + |between| + 3
    ensures forall i :: 0 <= i <= |before| ==> steps[i] == Cloning
    ensures forall i :: |before| < i <= |before| + |between| + 1 ==> steps[i] == Templating
    ensures steps[|steps| - 1] == Done
    ensures commands == [StartAndWait(CloneRepo), StartAndWait(TemplateRepo), Quit]
  {
    var m := new Model(palette);
    var cmd := m.Init();
    var atStart := m.step;
    var cloning := Feed(m, before);
    var first := m.Update(Report(cmd.task));
    var afterClone := m.step;
    var templating := Feed(m, between);
    var second := m.Update(Report(first.task));
    steps := [atStart] + cloning + [afterClone] + templating + [m.step];
    commands := [cmd, first, second];
  }
}
