/** The AddTodo form's submit handler: trim the input, reject it when nothing is left,
    otherwise hand the trimmed text to `onAdd` and clear the input. */
module AddTodoForm {
  import opened StringTrim

  /** The effect of one submit: the input text afterwards, and the arguments `onAdd` was
      called with, in call order. */
  datatype Submission = Submission(text: string, added: seq<string>)

  /** `handleSubmit` applied to the current input `text`. */
  function HandleSubmit(text: string): (s: Submission)
    ensures |s.added| <= 1
    ensures |s.added| == 1 <==> exists k :: 0 <= k < |text| && !IsWhitespace(text[k])
    ensures |s.added| == 1 ==> s.text == []
    ensures |s.added| == 0 ==> s.text == text
    ensures forall a :: a in s.added ==>
      && a != []
      && IsTrimmed(a)
      && exists i, j :: TrimsAt(text, i, j) && a == text[i..j]
  {
    var trimmed := Trim(text);
    if trimmed != [] then Submission("", [trimmed]) else Submission(text, [])
  }

  /** What `onAdd` receives is exactly `text.trim()`. */
  lemma SubmitPassesTrim(text: string)
    requires HandleSubmit(text).added != []
    ensures HandleSubmit(text).added == [Trim(text)]
  {
    var a := HandleSubmit(text).added[0];
    assert a in HandleSubmit(text).added;
    TrimCharacterization(text, a);
  }
}
