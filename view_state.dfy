/** Per-view command state: the current and previous command names, the numeric (universal)
    argument being typed, and the re-entrancy counter that makes nested command invocations
    invisible to the this/last command bookkeeping. */
module ViewState {
  import opened Wrappers

  /** The command name whose top-level runs do not count as a command of their own. */
  const UniversalArgumentName: string := "sbp_universal_argument"

  /** Commands the watcher re-runs `count` times when a numeric argument is given. */
  const RepeatableCmds: set<string> := {"move", "left_delete", "right_delete"}

  const ScrollLinesName: string := "scroll_lines"

  /** One press of the universal-argument command: `C-u`, `M--`, or a digit. */
  datatype ArgKey = ByFour | Negative | Digit(d: int)

  /** The numeric argument as three fields of the view state. */
  datatype Argument = Argument(supplied: bool, value: int, negative: bool)

  const NoArgument: Argument := Argument(false, 0, false)

  /** The universal-argument command. The first press starts an argument (4, the digit, or
      only the negative flag); later presses multiply by 4, append a decimal digit, or negate
      the value itself. */
  function Press(a: Argument, key: ArgKey): (r: Argument)
    ensures r.supplied
    ensures r.negative == (a.negative || (!a.supplied && key.Negative?))
    ensures a.supplied && key.Negative? ==> r.value == -a.value
  {
    if !a.supplied then
      match key
      case ByFour => Argument(true, 4, a.negative)
      case Negative => Argument(true, a.value, true)
      case Digit(d) => Argument(true, d, a.negative)
    else
      match key
      case ByFour => a.(value := a.value * 4)
      case Digit(d) => a.(value := a.value * 10 + d)
      case Negative => a.(value := -a.value)
  }

  /** A run of presses, oldest first. */
  function Presses(a: Argument, keys: seq<ArgKey>): Argument
    decreases |keys|
  {
    if |keys| == 0 then a else Presses(Press(a, keys[0]), keys[1..])
  }

  /** The count a command sees: 1 without an argument, otherwise the value, negated under
      the negative flag, where a bare negative flag means -1. */
  function Count(a: Argument): (r: int)
    ensures !a.supplied ==> r == 1
    ensures a.supplied && !a.negative ==> r == a.value
    ensures a.supplied && a.negative ==> r != 0 && (r < 0 <==> a.value >= 0)
    ensures a.supplied && a.negative && a.value != 0 ==> r == -a.value
  {
    if !a.supplied then 1
    else if !a.negative then a.value
    else if a.value == 0 then -1
    else -a.value
  }

  function Pow4(k: nat): nat
  {
    if k == 0 then 1 else 4 * Pow4(k - 1)
  }

  function Repeat(key: ArgKey, k: nat): (r: seq<ArgKey>)
    ensures |r| == k && forall i :: 0 <= i < k ==> r[i] == key
  {
    if k == 0 then [] else [key] + Repeat(key, k - 1)
  }

  /** The keys for a run of digit presses. */
  function Digits(ds: seq<int>): (r: seq<ArgKey>)
    ensures |r| == |ds| && forall i :: 0 <= i < |ds| ==> r[i] == Digit(ds[i])
  {
    if |ds| == 0 then [] else [Digit(ds[0])] + Digits(ds[1..])
  }

  /** The number the digits spell, read most significant first after `acc`. */
  function DigitsValue(acc: int, ds: seq<int>): int
    decreases |ds|
  {
    if |ds| == 0 then acc else DigitsValue(acc * 10 + ds[0], ds[1..])
  }

  /** Further `C-u` presses multiply a started argument by 4 each. */
  lemma {:induction false} ByFourMultiplies(a: Argument, k: nat)
    requires a.supplied
    ensures Presses(a, Repeat(ByFour, k)) == a.(value := a.value * Pow4(k))
    decreases k
  {
    if k > 0 {
      assert Repeat(ByFour, k)[1..] == Repeat(ByFour, k - 1);
      ByFourMultiplies(Press(a, ByFour), k - 1);
    }
  }

  /** `k` presses of `C-u` give the count 4^k. */
  lemma ByFourCount(k: nat)
    requires k >= 1
    ensures Count(Presses(NoArgument, Repeat(ByFour, k))) == Pow4(k)
  {
    assert Repeat(ByFour, k)[1..] == Repeat(ByFour, k - 1);
    ByFourMultiplies(Argument(true, 4, false), k - 1);
  }

  /** Further digit presses append decimal digits to a started argument. */
  lemma {:induction false} DigitsAppend(a: Argument, ds: seq<int>)
    requires a.supplied
    ensures Presses(a, Digits(ds)) == a.(value := DigitsValue(a.value, ds))
    decreases |ds|
  {
    if |ds| > 0 {
      assert Digits(ds)[1..] == Digits(ds[1..]);
      DigitsAppend(Press(a, Digit(ds[0])), ds[1..]);
    }
  }

  /** Typing digits gives the number they spell. */
  lemma DigitsCount(ds: seq<int>)
    requires |ds| >= 1
    ensures Count(Presses(NoArgument, Digits(ds))) == DigitsValue(0, ds)
  {
    assert Digits(ds)[1..] == Digits(ds[1..]);
    DigitsAppend(Argument(true, ds[0], false), ds[1..]);
  }

  /** `M--` followed by digits counts the negated number, and a bare `M--` counts -1. */
  lemma NegativeThenDigitsCount(ds: seq<int>)
    ensures Count(Presses(NoArgument, [Negative] + Digits(ds)))
      == if DigitsValue(0, ds) == 0 then -1 else -DigitsValue(0, ds)
  {
    assert ([Negative] + Digits(ds))[1..] == Digits(ds);
    DigitsAppend(Argument(true, 0, true), ds);
  }

  /** What the watcher does to a repeatable command under a count: run it |count| times,
      turning the direction round when the count is negative and the command has one. */
  function Repeated(count: int, forward: Option<bool>): (r: (nat, Option<bool>))
    ensures r.0 as int == (if count < 0 then -count else count)
    ensures r.1.Some? == forward.Some?
    ensures forward.Some? && count != 0 ==>
      (if r.1.value then r.0 as int else -(r.0 as int)) == (if forward.value then count else -count)
  {
    (if count < 0 then -count else count,
     if count < 0 && forward.Some? then Some(!forward.value) else forward)
  }

  /** A nested invocation of commands: a command may press the universal argument, runs the
      listed commands from inside its own body, may then assign `this_cmd` itself (set-mark
      with an argument records "sbp_pop_mark", jove.py:1258), and may end by raising an
      exception. */
  datatype Command = Command(name: string, unregistered: bool, press: Option<ArgKey>,
                             inner: seq<Command>, setsThisCmd: Option<string>, raises: bool)

  /** Whether a top-level run of this command is recorded in this/last command. */
  predicate Tracked(c: Command)
  {
    c.name != UniversalArgumentName || c.unregistered
  }

  /** Whether running the command ends in an exception: its own, or one from a command it
      runs (which stops the rest of its body). */
  predicate Raises(c: Command)
    decreases c
  {
    c.raises || InnerRaises(c)
  }

  /** Whether one of the commands run from the body raises. */
  predicate InnerRaises(c: Command)
    decreases c, 0
  {
    exists i :: 0 <= i < |c.inner| && Raises(c.inner[i])
  }

  /** `this_cmd` after the body of `c` ran from `t`: the inner commands' assignments in
      order, then the body's own one, unless an inner command raised first. */
  function BodyThis(c: Command, t: Option<string>): Option<string>
    decreases c, |c.inner| + 1
  {
    var t1 := InnerThis(c, 0, t);
    if InnerRaises(c) || c.setsThisCmd.None? then t1 else c.setsThisCmd
  }

  /** `this_cmd` after the inner commands of `c` from the `i`-th on ran from `t`, stopping
      after the first one that raises. */
  function InnerThis(c: Command, i: nat, t: Option<string>): Option<string>
    requires i <= |c.inner|
    decreases c, |c.inner| - i
  {
    if i == |c.inner| then t
    else
      var t' := BodyThis(c.inner[i], t);
      if Raises(c.inner[i]) then t' else InnerThis(c, i + 1, t')
  }

  /** No command in the tree assigns `this_cmd` from its body. */
  predicate Quiet(c: Command)
    decreases c
  {
    c.setsThisCmd.None? && forall i :: 0 <= i < |c.inner| ==> Quiet(c.inner[i])
  }

  /** A tree of commands whose bodies never assign `this_cmd` leaves it as it was. */
  lemma {:induction false} QuietKeepsThis(c: Command, t: Option<string>)
    requires Quiet(c)
    ensures BodyThis(c, t) == t
    decreases c, |c.inner| + 1
  {
    QuietInnerKeepsThis(c, 0, t);
  }

  lemma {:induction false} QuietInnerKeepsThis(c: Command, i: nat, t: Option<string>)
    requires Quiet(c) && i <= |c.inner|
    ensures InnerThis(c, i, t) == t
    decreases c, |c.inner| - i
  {
    if i < |c.inner| {
      QuietKeepsThis(c.inner[i], t);
      QuietInnerKeepsThis(c, i + 1, t);
    }
  }

  /** A body that assigns `this_cmd` and runs without an exception has the last word. */
  lemma BodyAssignmentWins(c: Command, t: Option<string>)
    requires c.setsThisCmd.Some? && !Raises(c)
    ensures BodyThis(c, t) == c.setsThisCmd
  {
  }

  /** The watcher's rewrite of a host command under a numeric argument. */
  datatype Rewrite = Keep | DoTimes(cmd: string, times: nat, forward: Option<bool>) | Scroll(amount: int)

  class ViewState {
    var thisCmd: Option<string>
    var lastCmd: Option<string>
    var argumentSupplied: bool
    var argumentValue: int
    var argumentNegative: bool
    var dragCount: int
    var entered: int
    var activeMark: bool

    ghost predicate Valid()
      reads this
    {
      entered >= 0
    }

    function Arg(): Argument
      reads this
    {
      Argument(argumentSupplied, argumentValue, argumentNegative)
    }

    constructor ()
      ensures Valid() && Arg() == NoArgument && thisCmd == None && lastCmd == None
      ensures dragCount == 0 && entered == 0 && !activeMark
    {
      activeMark := false;
      thisCmd := None;
      lastCmd := None;
      argumentSupplied := false;
      argumentValue := 0;
      argumentNegative := false;
      dragCount := 0;
      entered := 0;
    }

    /** `reset`: forget both commands, the argument and the counters; only the mark mode
        survives. */
    method Reset()
      modifies this
      ensures Valid() && thisCmd == None && lastCmd == None && Arg() == NoArgument
      ensures dragCount == 0 && entered == 0 && activeMark == old(activeMark)
    {
      thisCmd := None;
      lastCmd := None;
      argumentSupplied := false;
      argumentValue := 0;
      argumentNegative := false;
      dragCount := 0;
      entered := 0;
    }

    /** `get_count`: the count for the running command. Unless peeking, the argument is
        consumed: the supplied flag drops, and so does the negative flag when an argument was
        supplied. The value itself stays until the outermost command ends. */
    method GetCount(peek: bool) returns (count: int)
      modifies this
      ensures count == Count(old(Arg()))
      ensures peek ==> Arg() == old(Arg())
      ensures !peek ==> Arg() == Argument(false, old(argumentValue),
                                          old(argumentNegative) && !old(argumentSupplied))
      ensures thisCmd == old(thisCmd) && lastCmd == old(lastCmd) && entered == old(entered)
      ensures dragCount == old(dragCount) && activeMark == old(activeMark)
    {
      if argumentSupplied {
        count := argumentValue;
        if argumentNegative {
          if count == 0 {
            count := -1;
          } else {
            count := -count;
          }
          if !peek {
            argumentNegative := false;
          }
        }
        if !peek {
          argumentSupplied := false;
        }
      } else {
        count := 1;
      }
    }

    /** `last_was_kill_cmd`: the previous command is one of the kill commands. */
    predicate LastWasKillCmd(killCmds: set<string>)
      reads this
    {
      lastCmd.Some? && lastCmd.value in killCmds
    }

    /** The universal-argument command's body. */
    method UniversalArgument(key: ArgKey)
      modifies this
      ensures Arg() == Press(old(Arg()), key)
      ensures thisCmd == old(thisCmd) && lastCmd == old(lastCmd) && entered == old(entered)
      ensures dragCount == old(dragCount) && activeMark == old(activeMark)
    {
      if !argumentSupplied {
        argumentSupplied := true;
        match key
        case ByFour => argumentValue := 4;
        case Negative => argumentNegative := true;
        case Digit(d) => argumentValue := d;
      } else {
        match key
        case ByFour => argumentValue := argumentValue * 4;
        case Digit(d) => argumentValue := argumentValue * 10 + d;
        case Negative => argumentValue := -argumentValue;
      }
    }

    /** A command's `run`: record the command at the outermost level, run its body one level
        deeper (where it and the commands it runs may assign `this_cmd` themselves), and at
        the outermost level make `this_cmd` the last command and drop the argument. An
        exception still restores the depth but skips that last step. */
    method Run(c: Command) returns (raised: bool)
      requires Valid()
      modifies this
      decreases c
      ensures Valid() && entered == old(entered) && raised == Raises(c)
      ensures dragCount == old(dragCount) && activeMark == old(activeMark)
      ensures old(entered) > 0 ==> thisCmd == BodyThis(c, old(thisCmd)) && lastCmd == old(lastCmd)
      ensures old(entered) == 0 ==>
        thisCmd == BodyThis(c, if Tracked(c) then Some(c.name) else old(thisCmd))
      ensures old(entered) == 0 && Tracked(c) && !raised ==>
        lastCmd == thisCmd && argumentValue == 0 && !argumentSupplied
      ensures old(entered) == 0 && (raised || !Tracked(c)) ==> lastCmd == old(lastCmd)
    {
      if entered == 0 && Tracked(c) {
        thisCmd := Some(c.name);
      }
      ghost var start := thisCmd;
      entered := entered + 1;
      if c.press.Some? {
        UniversalArgument(c.press.value);
      }
      raised := false;
      var i := 0;
      while i < |c.inner| && !raised
        invariant 0 <= i <= |c.inner|
        invariant Valid() && entered == old(entered) + 1 && lastCmd == old(lastCmd)
        invariant dragCount == old(dragCount) && activeMark == old(activeMark)
        invariant raised <==> exists j :: 0 <= j < i && Raises(c.inner[j])
        invariant !raised ==> InnerThis(c, 0, start) == InnerThis(c, i, thisCmd)
        invariant raised ==> thisCmd == InnerThis(c, 0, start)
        decreases |c.inner| - i
      {
        raised := Run(c.inner[i]);
        i := i + 1;
      }
      if !raised && c.setsThisCmd.Some? {
        thisCmd := c.setsThisCmd;
      }
      if !raised && c.raises {
        raised := true;
      }
      entered := entered - 1;
      if !raised && entered == 0 && Tracked(c) {
        lastCmd := thisCmd;
        argumentValue := 0;
        argumentSupplied := false;
      }
    }

    /** The watcher's numeric-argument rewrite of a host command: a repeatable command
        becomes a run of `|count|` copies, `scroll_lines` scrolls `count` times as far, and
        either use consumes the argument. Without an argument nothing is rewritten. */
    method RepeatRewrite(cmd: string, forward: Option<bool>, amount: int) returns (r: Rewrite)
      modifies this
      ensures !old(argumentSupplied) || (cmd !in RepeatableCmds && cmd != ScrollLinesName) ==>
        r == Keep && Arg() == old(Arg())
      ensures old(argumentSupplied) && cmd in RepeatableCmds ==>
        r == DoTimes(cmd, Repeated(Count(old(Arg())), forward).0, Repeated(Count(old(Arg())), forward).1)
      ensures old(argumentSupplied) && cmd !in RepeatableCmds && cmd == ScrollLinesName ==>
        r == Scroll(amount * Count(old(Arg())))
      ensures old(argumentSupplied) && (cmd in RepeatableCmds || cmd == ScrollLinesName) ==>
        Arg() == Argument(false, old(argumentValue), false)
      ensures thisCmd == old(thisCmd) && lastCmd == old(lastCmd) && entered == old(entered)
      ensures dragCount == old(dragCount) && activeMark == old(activeMark)
    {
      if !argumentSupplied {
        return Keep;
      }
      if cmd in RepeatableCmds {
        var count := GetCount(false);
        var rep := Repeated(count, forward);
        r := DoTimes(cmd, rep.0, rep.1);
      } else if cmd == ScrollLinesName {
        var count := GetCount(false);
        r := Scroll(amount * count);
      } else {
        r := Keep;
      }
    }
  }
}
