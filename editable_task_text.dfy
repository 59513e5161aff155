/** src/components/EditableTaskText.tsx: a task's text that can be edited in
    place. `Editor` holds the component's props (`text`, `completed`) and
    its state (`isEditing`, `editText`); `onSave` is modelled as the value
    `HandleSave` returns. */
module EditableTaskText {
  import opened Types
  import opened Text

  /** What `handleSave` passes to `onSave`: the trimmed draft, when it is
      non-empty and differs from the current text. */
  function SavedText(editText: string, text: string): (r: Option<string>)
    ensures r.Some? <==> !IsBlank(editText) && Trim(editText) != text
    ensures r.Some? ==> r.value == Trim(editText)
  {
    TrimEmptyIffBlank(editText);
    var trimmed := Trim(editText);
    if trimmed != "" && trimmed != text then Some(trimmed) else None
  }

  /** The draft after `handleSave`: a blank draft is put back to the text,
      any other is left as typed. */
  function DraftAfterSave(editText: string, text: string): (r: string)
    ensures IsBlank(editText) ==> r == text
    ensures !IsBlank(editText) ==> r == editText
  {
    TrimEmptyIffBlank(editText);
    if Trim(editText) == "" then text else editText
  }

  /** A whitespace-only draft never reaches `onSave` and is replaced by the
      original text. */
  lemma BlankNeverSaved(editText: string, text: string)
    requires forall k :: 0 <= k < |editText| ==> IsWhitespace(editText[k])
    ensures SavedText(editText, text) == None
    ensures DraftAfterSave(editText, text) == text
  {
  }

  /** What is saved has no surrounding whitespace and is not blank. */
  lemma SavedIsTrimmed(editText: string, text: string)
    requires SavedText(editText, text).Some?
    ensures var s := SavedText(editText, text).value;
      Trim(s) == s && !IsBlank(s) && s != text
  {
    TrimIdempotent(editText);
    TrimEmptyIffBlank(Trim(editText));
  }

  /** Once the parent has stored the saved text, saving the resynchronised
      draft again saves nothing. */
  lemma ResaveSavesNothing(editText: string, text: string)
    requires SavedText(editText, text).Some?
    ensures var s := SavedText(editText, text).value;
      SavedText(s, s) == None
  {
    TrimIdempotent(editText);
  }

  class Editor {
    var text: string
    var completed: bool
    var isEditing: bool
    var editText: string

    /** Mounting: not editing, the draft equal to the text. */
    constructor (text: string, completed: bool)
      ensures this.text == text && this.completed == completed
      ensures !isEditing && editText == text
    {
      this.text := text;
      this.completed := completed;
      isEditing := false;
      editText := text;
    }

    /** New props from the parent. The resync effect depends on `text` only,
        so the draft follows the text when the text changes. */
    method ReceiveProps(newText: string, newCompleted: bool)
      modifies this
      ensures text == newText && completed == newCompleted && isEditing == old(isEditing)
      ensures editText == if newText != old(text) then newText else old(editText)
    {
      if newText != text {
        editText := newText;
      }
      text := newText;
      completed := newCompleted;
    }

    /** `onChangeText`: the draft becomes what was typed. */
    method ChangeText(s: string)
      modifies this`editText
      ensures editText == s
    {
      editText := s;
    }

    /** `handleDoublePress`, bound to the long press: a completed task
        cannot be edited. */
    method HandleDoublePress()
      modifies this`isEditing
      ensures isEditing == (old(isEditing) || !completed)
    {
      if !completed {
        isEditing := true;
      }
    }

    /** `handleSave`, on blur and on submit. `saved` is the argument given to
        `onSave`, None when it is not called. */
    method HandleSave() returns (saved: Option<string>)
      modifies this`isEditing, this`editText
      ensures saved == SavedText(old(editText), text)
      ensures editText == DraftAfterSave(old(editText), text)
      ensures !isEditing
    {
      ghost var want := SavedText(editText, text);
      ghost var draft := DraftAfterSave(editText, text);
      var trimmed := Trim(editText);
      assert want == if trimmed != "" && trimmed != text then Some(trimmed) else None;
      assert draft == if trimmed == "" then text else editText;
      if trimmed != "" && trimmed != text {
        saved := Some(trimmed);
      } else {
        saved := None;
        if trimmed == "" {
          editText := text;
        }
      }
      isEditing := false;
      assert saved == want && editText == draft;
    }

    /** `handleCancel`: drops the draft and leaves editing; nothing is saved. */
    method HandleCancel()
      modifies this`isEditing, this`editText
      ensures editText == text && !isEditing
    {
      editText := text;
      isEditing := false;
    }

    /** `onKeyPress`: Escape cancels, on the web only. */
    method HandleKeyPress(onWeb: bool, key: string)
      modifies this`isEditing, this`editText
      ensures onWeb && key == "Escape" ==> editText == text && !isEditing
      ensures !(onWeb && key == "Escape") ==> editText == old(editText) && isEditing == old(isEditing)
    {
      if onWeb && key == "Escape" {
        HandleCancel();
      }
    }
  }
}
