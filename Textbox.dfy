// The editing core of Textbox (src/interface/Textbox.cpp): which characters a
// box accepts, deleting the selection, and inserting pasted or typed text
// with the revert that keeps the text within its limits. The selection runs
// between cursor and cursorStart, both positions in the text. Label.cpp, which
// lays the text out, is not part of this model: whether the laid-out text
// overflows the box is a parameter.
module Textbox {
  import opened Format

  /** Textbox::texttype. */
  datatype TextType = Text | Multiline | Number

  /** Textbox::CharacterValid: digits for a number box; ' '..'~' for a text
      box; a multiline box also takes '\n' (its case falls through to the
      text box's). */
  predicate CharacterValid(t: TextType, c: char)
  {
    match t
    case Number => '0' <= c <= '9'
    case Multiline => c == '\n' || (' ' <= c <= '~')
    case Text => ' ' <= c <= '~'
  }

  /** Textbox::StringValid, over the characters of the C string before its
      terminator: false at the first character the box refuses. */
  method StringValid(t: TextType, s: string) returns (ok: bool)
    ensures ok <==> forall i :: 0 <= i < |s| ==> CharacterValid(t, s[i])
  {
    var i := 0;
    while i < |s|
      invariant 0 <= i <= |s|
      invariant forall j :: 0 <= j < i ==> CharacterValid(t, s[j])
    {
      if !CharacterValid(t, s[i]) {
        return false;
      }
      i := i + 1;
    }
    return true;
  }

  /** The text of a box with its two cursors. */
  datatype Edit = Edit(text: string, cursor: int, cursorStart: int)
  {
    predicate Valid()
    {
      0 <= cursor <= |text| && 0 <= cursorStart <= |text|
    }

    /** The selected span runs from Lo() to Hi(). */
    function Lo(): int { if cursor <= cursorStart then cursor else cursorStart }
    function Hi(): int { if cursor <= cursorStart then cursorStart else cursor }
  }

  /** DeleteHighlight on the text and cursors: with a selection, its span is
      erased and both cursors move to where it began. */
  function DeleteSelection(e: Edit): (r: Edit)
    requires e.Valid()
    ensures r.Valid()
  {
    if e.cursor == e.cursorStart then e
    else Edit(e.text[..e.Lo()] + e.text[e.Hi()..], e.Lo(), e.Lo())
  }

  /** The text of InsertText before it is measured: the selection replaced
      by ins, and the cursor (with no selection) just after ins. */
  function Insert(e: Edit, ins: string): (r: Edit)
    requires e.Valid()
    ensures r.Valid()
  {
    var d := DeleteSelection(e);
    var c := d.cursor + |ins|;
    Edit(d.text[..d.cursor] + ins + d.text[d.cursor..], c, c)
  }

  /** The flags InsertText cleans with: printable ASCII, no colour codes, and
      newlines turned into spaces except in a multiline box. */
  function InsertFlags(t: TextType): CleanFlags
  {
    CleanFlags(true, true, t != Multiline, false)
  }

  /** InsertText's outcome: nothing happens when cleaning leaves nothing;
      otherwise the insertion is undone (text and cursors restored) when the
      laid-out text overflows the box or the text exceeds characterLimit. */
  function Inserted(e: Edit, t: TextType, insert: string, overflows: bool, characterLimit: nat): (r: Edit)
    requires e.Valid()
    ensures r.Valid()
  {
    var ins := Clean(insert, InsertFlags(t));
    if ins == [] then e
    else
      var n := Insert(e, ins);
      if overflows || |n.text| > characterLimit then e else n
  }

  /** Deleting the selection takes out exactly the selected characters:
      putting them back where the cursor now is restores the text, with the
      cursor at the end of the span. */
  lemma DeleteSelectionRestores(e: Edit)
    requires e.Valid() && e.cursor != e.cursorStart
    ensures var d := DeleteSelection(e);
      d.cursor == d.cursorStart == e.Lo() &&
      |d.text| == |e.text| - (e.Hi() - e.Lo()) &&
      Insert(d, e.text[e.Lo()..e.Hi()]) == Edit(e.text, e.Hi(), e.Hi())
  {
    var d := DeleteSelection(e);
    var lo, hi := e.Lo(), e.Hi();
    assert d.text[..lo] == e.text[..lo];
    assert d.text[lo..] == e.text[hi..];
    assert e.text[..lo] + e.text[lo..hi] + e.text[hi..] == e.text;
  }

  /** Without a selection, deleting it changes nothing. */
  lemma DeleteNothing(e: Edit)
    requires e.Valid() && e.cursor == e.cursorStart
    ensures DeleteSelection(e) == e
  {
  }

  /** An insertion that stays is the unselected text with the cleaned text
      spliced in at the start of the old selection, the cursor just after it,
      and the text within characterLimit; one that does not stay leaves
      everything as it was. */
  lemma InsertedSpec(e: Edit, t: TextType, insert: string, overflows: bool, characterLimit: nat)
    requires e.Valid()
    ensures var r := Inserted(e, t, insert, overflows, characterLimit);
      var ins := Clean(insert, InsertFlags(t));
      var d := DeleteSelection(e);
      (r == e) || (
        ins != [] && !overflows && |r.text| <= characterLimit &&
        |r.text| == |d.text| + |ins| &&
        r.cursor == r.cursorStart == e.Lo() + |ins| &&
        r.text[..e.Lo()] == d.text[..e.Lo()] &&
        r.text[e.Lo()..r.cursor] == ins &&
        r.text[r.cursor..] == d.text[e.Lo()..])
  {
    var ins := Clean(insert, InsertFlags(t));
    if ins != [] {
      var d := DeleteSelection(e);
      var r := Insert(e, ins);
      assert d.cursor == e.Lo();
      var p := d.text[..d.cursor];
      assert r.text == p + ins + d.text[d.cursor..];
      assert r.text[..e.Lo()] == p;
      assert r.text[e.Lo()..r.cursor] == ins;
      assert r.text[r.cursor..] == d.text[d.cursor..];
    }
  }

  /** A text within characterLimit stays within it whatever is inserted. */
  lemma InsertedKeepsLimit(e: Edit, t: TextType, insert: string, overflows: bool, characterLimit: nat)
    requires e.Valid() && |e.text| <= characterLimit
    ensures |Inserted(e, t, insert, overflows, characterLimit).text| <= characterLimit
  {
  }

  /** The text InsertText splices in is one a text or multiline box accepts
      character by character: cleaning with its flags leaves only ' '..'~',
      plus '\n' in a multiline box. */
  lemma {:induction false} CleanedValid(t: TextType, insert: string)
    requires t != Number
    ensures var ins := Clean(insert, InsertFlags(t));
      forall i :: 0 <= i < |ins| ==> CharacterValid(t, ins[i])
  {
    var f := InsertFlags(t);
    CleanWithColor(insert, f);
    var ins := Clean(insert, f);
    forall i | 0 <= i < |ins|
      ensures CharacterValid(t, ins[i])
    {
      assert Accepted(ins[i], f);
    }
  }

  class Textbox {
    var text: string
    var cursor: int
    var cursorStart: int
    var characterLimit: nat
    var textType: TextType

    function State(): Edit
      reads this
    {
      Edit(text, cursor, cursorStart)
    }

    predicate Valid()
      reads this
    {
      State().Valid()
    }

    /** A new box: its text with both cursors at the start (Label's
        constructor is not part of this model), a limit of 10000 characters,
        and the text type. */
    constructor (text: string, textType: TextType)
      ensures State() == Edit(text, 0, 0) && characterLimit == 10000 && this.textType == textType
      ensures Valid()
    {
      this.text := text;
      cursor := 0;
      cursorStart := 0;
      characterLimit := 10000;
      this.textType := textType;
    }

    /** Textbox::DeleteHighlight: erase the selection, if there is one, and
        say whether there was. Redrawing and the change callback are not part
        of this model. */
    method DeleteHighlight() returns (deleted: bool)
      requires Valid()
      modifies this
      ensures Valid() && deleted == (old(cursor) != old(cursorStart))
      ensures State() == DeleteSelection(old(State()))
      ensures characterLimit == old(characterLimit) && textType == old(textType)
    {
      if cursor == cursorStart {
        return false;
      }
      if cursor > cursorStart {
        text := text[..cursorStart] + text[cursor..];
        cursor := cursorStart;
      } else {
        text := text[..cursor] + text[cursorStart..];
        cursorStart := cursor;
      }
      return true;
    }

    /** Textbox::InsertText: clean the text, replace the selection with it,
        and undo everything if the result overflows the box (overflows) or
        exceeds characterLimit; otherwise leave the cursor after it. */
    method InsertText(insert: string, overflows: bool)
      requires Valid()
      modifies this
      ensures Valid()
      ensures State() == Inserted(old(State()), textType, insert, overflows, characterLimit)
      ensures characterLimit == old(characterLimit) && textType == old(textType)
    {
      var ins := CleanString(insert, CleanFlags(true, true, textType != Multiline, false));
      if |ins| == 0 {
        return;
      }
      var oldText, oldCursor, oldCursorStart := text, cursor, cursorStart;
      var len := |ins|;
      var _ := DeleteHighlight();
      text := text[..cursor] + ins + text[cursor..];
      if overflows || |text| > characterLimit {
        text := oldText;
        cursor := oldCursor;
        cursorStart := oldCursorStart;
        return;
      }
      cursor := cursor + len;
      cursorStart := cursor;
    }
  }
}
