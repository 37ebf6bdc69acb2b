// The console window of src/gui/console/Console.cpp: the command history
// (newest first, at most twenty entries), browsing it with the arrow keys,
// submitting the command line, and the draggable divider between the command
// and result columns. The history and the unsubmitted command outlive the
// window (they are globals in the source); here they are fields, and the
// constructor and Close take and leave them. The command interpreter is
// foreign: what it prints and whether it asks to close the console are
// parameters. The history labels, their scroll window and the submit button
// are not part of this model.
module Console {
  import opened Defines

  /** A submitted command and the interpreter's answer to it. */
  datatype Entry = Entry(command: string, result: string)

  /** DiscardOldestCommand keeps this many entries. */
  const HistoryLimit: nat := 20

  /** The keys OnKeyPress tells apart. */
  datatype Key = Return | Grave | Up | Down | OtherKey

  /** What the console remembers: the history, the command saved while
      browsing, which entry the command line shows (-1 the command being
      typed, -2 a blank line below it), the command line, and whether the
      console has asked to be closed. */
  datatype Session = Session(history: seq<Entry>, unsubmitted: string, historyLoc: int,
                             text: string, closing: bool)
  {
    predicate Valid()
    {
      |history| <= HistoryLimit && -2 <= historyLoc < |history|
    }
  }

  /** The newest entries DiscardOldestCommand keeps. */
  function Newest(h: seq<Entry>): (r: seq<Entry>)
    ensures |r| <= HistoryLimit && |r| == if |h| > HistoryLimit then HistoryLimit else |h|
    ensures forall i :: 0 <= i < |r| ==> r[i] == h[i]
  {
    if |h| > HistoryLimit then h[..HistoryLimit] else h
  }

  /** SetHistoryLoc: leaving the command being typed saves it; the command
      line then shows the entry at loc, the saved command for -1, or nothing. */
  function Browse(s: Session, loc: int): Session
  {
    var u := if s.historyLoc == -1 then s.text else s.unsubmitted;
    s.(unsubmitted := u, historyLoc := loc,
       text := if 0 <= loc < |s.history| then s.history[loc].command else if loc == -1 then u else "")
  }

  /** Submit: the command and its result go in front of the history, the
      oldest entries beyond twenty are dropped, the saved command is cleared
      and the command line is back at -1. */
  function Submitted(s: Session, command: string, result: string, failed: bool): Session
  {
    s.(history := Newest([Entry(command, result)] + s.history), unsubmitted := "", historyLoc := -1,
       closing := s.closing || failed)
  }

  /** OnKeyPress: Return submits a non-empty command line and clears it;
      the backquote key without shift closes the console; Up shows the next
      older entry while there is one; Down shows the next newer one, and
      below the newest the saved command, and below that (only when a
      command is saved) a blank line. */
  function Pressed(s: Session, key: Key, shift: bool, result: string, failed: bool): Session
  {
    match key
    case Return => if s.text != "" then Submitted(s, s.text, result, failed).(text := "") else s
    case Grave => if !shift then s.(closing := true) else s
    case Up => if s.historyLoc < |s.history| - 1 then Browse(s, s.historyLoc + 1) else s
    case Down =>
      if s.historyLoc >= (if s.unsubmitted == "" then 0 else -1) then Browse(s, s.historyLoc - 1) else s
    case OtherKey => s
  }

  /** Every key keeps the history within twenty entries and the shown
      position within it. */
  lemma PressedValid(s: Session, key: Key, shift: bool, result: string, failed: bool)
    requires s.Valid()
    ensures Pressed(s, key, shift, result, failed).Valid()
  {
  }

  /** Submitting puts the command first, keeps the older entries in order
      behind it up to twenty in all, and returns to the command being typed. */
  lemma SubmittedHistory(s: Session, command: string, result: string, failed: bool)
    ensures var t := Submitted(s, command, result, failed);
      |t.history| == (if |s.history| < HistoryLimit then |s.history| + 1 else HistoryLimit) &&
      t.history[0] == Entry(command, result) &&
      (forall i :: 1 <= i < |t.history| ==> t.history[i] == s.history[i - 1]) &&
      t.historyLoc == -1 && t.unsubmitted == ""
  {
    var h := [Entry(command, result)] + s.history;
    assert forall i :: 1 <= i < |h| ==> h[i] == s.history[i - 1];
  }

  /** Up shows the entry it moves to (from the blank line, the saved
      command), and never moves past the oldest. */
  lemma UpShowsEntry(s: Session, shift: bool, result: string, failed: bool)
    requires s.Valid()
    ensures var t := Pressed(s, Up, shift, result, failed);
      t.historyLoc < |s.history| && t.history == s.history &&
      (s.historyLoc < |s.history| - 1 ==>
        t.historyLoc == s.historyLoc + 1 &&
        (t.historyLoc >= 0 ==> t.text == s.history[t.historyLoc].command) &&
        (t.historyLoc == -1 ==> t.text == s.unsubmitted)) &&
      (s.historyLoc >= |s.history| - 1 ==> t == s)
  {
  }

  /** Browsing keeps the command being typed: from -1, Up and then Down
      bring back the same command line. */
  lemma {:induction false} UpDownRestores(s: Session, shift: bool, result: string, failed: bool)
    requires s.Valid() && s.historyLoc == -1 && |s.history| > 0
    ensures var t := Pressed(Pressed(s, Up, shift, result, failed), Down, shift, result, failed);
      t.historyLoc == -1 && t.text == s.text && t.history == s.history
  {
    var u := Pressed(s, Up, shift, result, failed);
    assert u.historyLoc == 0 && u.unsubmitted == s.text;
    var t := Pressed(u, Down, shift, result, failed);
    assert t == Browse(u, -1);
  }

  /** Below a saved command, Down blanks the command line and Up brings the
      command back. */
  lemma {:induction false} DownUpRestores(s: Session, shift: bool, result: string, failed: bool)
    requires s.Valid() && s.historyLoc == -1 && s.unsubmitted != ""
    ensures var d := Pressed(s, Down, shift, result, failed);
      d.historyLoc == -2 && d.text == "" &&
      var t := Pressed(d, Up, shift, result, failed);
      t.historyLoc == -1 && t.text == s.text
  {
    var d := Pressed(s, Down, shift, result, failed);
    assert d == Browse(s, -2);
    assert d.unsubmitted == s.text;
  }

  /** Closing the console saves the command being typed (and only that);
      a console opened afterwards shows it again. */
  function SavedOnClose(s: Session): string
  {
    if s.historyLoc == -1 then s.text else ""
  }

  /** The divider follows the mouse but keeps 100 pixels clear of either
      edge of a window width wide. */
  function DividerAt(x: int, width: int): int
  {
    var m := if x <= width - 100 then x else width - 100;
    if 100 >= m then 100 else m
  }

  lemma DividerClamped(x: int, width: int)
    requires width >= 200
    ensures 100 <= DividerAt(x, width) <= width - 100
    ensures 100 <= x <= width - 100 ==> DividerAt(x, width) == x
  {
  }

  class Console {
    var history: seq<Entry>
    var unsubmitted: string
    var historyLoc: int
    var text: string
    var closing: bool
    var width: int
    var scrollHeight: int
    var dividerPos: int
    var draggingDivider: bool
    var lastClickButton: int

    function State(): Session
      reads this
    {
      Session(history, unsubmitted, historyLoc, text, closing)
    }

    predicate Valid()
      reads this
    {
      State().Valid() && width == VIDXRES && 100 <= dividerPos <= width - 100
    }

    /** A console over the kept history: VIDXRES wide with a 233 pixel high
        scroll window, the divider a little left of the middle, the command
        line showing the saved command. */
    constructor (history: seq<Entry>, unsubmitted: string)
      requires |history| <= HistoryLimit
      ensures State() == Session(history, unsubmitted, -1, unsubmitted, false)
      ensures dividerPos == VIDXRES / 2 - 50 && !draggingDivider && scrollHeight == 233
      ensures Valid()
    {
      this.history := history;
      this.unsubmitted := unsubmitted;
      historyLoc := -1;
      text := unsubmitted;
      closing := false;
      width := VIDXRES;
      scrollHeight := 250 - 17;
      dividerPos := VIDXRES / 2 - 50;
      draggingDivider := false;
      lastClickButton := 0;
    }

    /** The destructor: the command being typed is saved for the next
        console, anything else is forgotten. */
    method Close() returns (saved: string)
      modifies this
      ensures saved == SavedOnClose(old(State())) && unsubmitted == saved
      ensures history == old(history)
    {
      if historyLoc == -1 {
        unsubmitted := text;
      } else {
        unsubmitted := "";
      }
      saved := unsubmitted;
    }

    /** DiscardOldestCommand, for the history: drop the oldest entries until
        twenty remain. */
    method DiscardOldestCommand()
      modifies this
      ensures history == Newest(old(history))
      ensures unsubmitted == old(unsubmitted) && historyLoc == old(historyLoc) && text == old(text)
      ensures closing == old(closing) && width == old(width) && dividerPos == old(dividerPos)
    {
      while |history| > HistoryLimit
        invariant |history| <= |old(history)| && history == old(history)[..|history|]
        invariant |old(history)| > HistoryLimit ==> |history| >= HistoryLimit
        invariant |old(history)| <= HistoryLimit ==> history == old(history)
        invariant unsubmitted == old(unsubmitted) && historyLoc == old(historyLoc) && text == old(text)
        invariant closing == old(closing) && width == old(width) && dividerPos == old(dividerPos)
      {
        history := history[..|history| - 1];
      }
    }

    /** Submit: run the command (result is what the interpreter printed,
        failed whether it asked to close the console) and record it. */
    method Submit(command: string, result: string, failed: bool)
      modifies this
      ensures State() == Submitted(old(State()), command, result, failed).(text := old(text))
      ensures width == old(width) && dividerPos == old(dividerPos)
    {
      if failed {
        closing := true;
      }
      history := [Entry(command, result)] + history;
      DiscardOldestCommand();
      unsubmitted := "";
      historyLoc := -1;
    }

    /** SetHistoryLoc. */
    method SetHistoryLoc(loc: int)
      modifies this
      ensures State() == Browse(old(State()), loc)
      ensures width == old(width) && dividerPos == old(dividerPos)
    {
      if historyLoc == -1 {
        unsubmitted := text;
      }
      historyLoc := loc;
      if loc >= 0 && loc < |history| {
        text := history[loc].command;
      } else if loc == -1 {
        text := unsubmitted;
      } else {
        text := "";
      }
    }

    /** OnKeyPress. */
    method OnKeyPress(key: Key, shift: bool, result: string, failed: bool)
      requires Valid()
      modifies this
      ensures Valid() && State() == Pressed(old(State()), key, shift, result, failed)
      ensures dividerPos == old(dividerPos)
    {
      PressedValid(State(), key, shift, result, failed);
      if key == Return {
        if text != "" {
          Submit(text, result, failed);
          text := "";
        }
      } else if key == Grave && !shift {
        closing := true;
      } else if key == Up {
        if historyLoc < |history| - 1 {
          SetHistoryLoc(historyLoc + 1);
        }
      } else if key == Down {
        if historyLoc >= (if unsubmitted == "" then 0 else -1) {
          SetHistoryLoc(historyLoc - 1);
        }
      }
    }

    /** BeforeMouseDown: a left click within 8 pixels of the divider, above
        the command line, starts dragging it. */
    method BeforeMouseDown(x: int, y: int, button: int) returns (handled: bool)
      modifies this
      ensures handled && lastClickButton == button
      ensures draggingDivider ==
        (old(draggingDivider) || (button == 1 && dividerPos - 8 < x < dividerPos + 8 && y < scrollHeight))
      ensures State() == old(State()) && dividerPos == old(dividerPos) && width == old(width)
    {
      if button == 1 && x > dividerPos - 8 && x < dividerPos + 8 && y < scrollHeight {
        draggingDivider := true;
      }
      lastClickButton := button;
      return true;
    }

    /** BeforeMouseUp: any release ends dragging. */
    method BeforeMouseUp() returns (handled: bool)
      modifies this
      ensures handled && !draggingDivider
      ensures State() == old(State()) && dividerPos == old(dividerPos) && width == old(width)
    {
      draggingDivider := false;
      return true;
    }

    /** OnMouseMove: while dragging, the divider follows the mouse within
        100 pixels of either edge (relaying out the labels is not part of
        this model). */
    method OnMouseMove(x: int)
      requires Valid()
      modifies this
      ensures Valid() && State() == old(State())
      ensures dividerPos == if old(draggingDivider) then DividerAt(x, width) else old(dividerPos)
    {
      if draggingDivider {
        var m := if x <= width - 100 then x else width - 100;
        dividerPos := if 100 >= m then 100 else m;
        DividerClamped(x, width);
      }
    }
  }
}
