/**
  The chapter editor of ChapterGenerator.jsx: which chapter is selected, the
  POV override, the prepared generation plan, the title and content being
  edited, the status message and the `saving` flag, and how `prepare` and
  `save` change them.

  The HTTP exchanges are not modelled; what they return is an input
  (`PrepareOutcome`, `SaveOutcome`), and the request bodies they would send
  are outputs (`PrepareRequest`, `SaveRequest`). Each asynchronous operation is
  split at its `await` into a Begin and an End step, so that the state while a
  request is in flight can be stated.
 */
module Editor {
  import opened Words
  import opened Decimal

  datatype Option<T> = None | Some(value: T)

  // ---------------------------------------------------------------------------
  // Word-count flag (line 104)

  const MinWords: nat := 1400
  const MaxWords: nat := 1800

  /** The counter is shown in red when the count is below 1400 or above 1800. */
  function OutOfRange(count: nat): (flagged: bool)
    ensures !flagged <==> MinWords <= count <= MaxWords
  {
    count < MinWords || count > MaxWords
  }

  /** Both bounds are inside the accepted range; one word beyond either is not. */
  lemma RangeBoundsInclusive()
    ensures !OutOfRange(1400) && !OutOfRange(1800)
    ensures OutOfRange(1399) && OutOfRange(1801)
  {
  }

  /** Text without words is always flagged. */
  lemma BlankTextFlagged(content: string)
    requires AllSpace(content)
    ensures WordCount(content) == 0 && OutOfRange(WordCount(content))
  {
    WordCountZeroIff(content);
  }

  // ---------------------------------------------------------------------------
  // Choices offered by the controls (lines 64-66 and 71-75)

  /** The chapter buttons: one per chapter, labelled 1 to `count`. */
  function ChapterNumbers(count: nat): (numbers: seq<nat>)
    ensures |numbers| == count
    ensures forall n :: n in numbers <==> 1 <= n <= count
    ensures forall i, j :: 0 <= i < j < count ==> numbers[i] < numbers[j]
  {
    if count == 0 then []
    else
      var earlier := ChapterNumbers(count - 1);
      assert forall i :: 0 <= i < count - 1 ==> earlier[i] < count by {
        forall i | 0 <= i < count - 1 ensures earlier[i] < count {
          assert earlier[i] in earlier;
        }
      }
      earlier + [count]
  }

  /** The options of the "Override POV" select. */
  datatype PovChoice = Auto | Female | Male

  /** The `value` attribute of each option. */
  function ChoiceValue(choice: PovChoice): string {
    match choice
    case Auto => ""
    case Female => "female"
    case Male => "male"
  }

  /** `overridePOV || null`: Auto, whose value is the empty string, is sent as null. */
  function OverridePayload(choice: PovChoice): (pov: Option<string>)
    ensures pov == None <==> choice == Auto
    ensures pov != None ==> pov.value == ChoiceValue(choice) && pov.value in {"female", "male"}
  {
    if ChoiceValue(choice) == "" then None else Some(ChoiceValue(choice))
  }

  /** The payload tells which option was chosen. */
  lemma OverridePayloadInjective(c1: PovChoice, c2: PovChoice)
    requires OverridePayload(c1) == OverridePayload(c2)
    ensures c1 == c2
  {
  }

  // ---------------------------------------------------------------------------
  // Requests, responses and messages

  /** The response of the prepare endpoint. */
  datatype Plan = Plan(resolvedPov: string, chapterTitle: string, systemRules: string, userPrompt: string)

  /** Body of `POST /api/chapters/prepare`; `overridePov == None` is JSON null. */
  datatype PrepareRequest = PrepareRequest(projectId: string, number: nat, overridePov: Option<string>)

  /** Body of `POST /api/chapters/save`; `povUsed == None` means the key is absent. */
  datatype SaveRequest = SaveRequest(projectId: string, number: nat, title: string, content: string, povUsed: Option<string>)

  /** How a prepare request ends: no usable reply (the fetch or the JSON decoding
      threw, which the code does not catch), a reply that is not `ok`, or a plan. */
  datatype PrepareOutcome = PrepareUnanswered | PrepareRejected | PrepareAnswered(plan: Plan)

  /** How a save request ends: it threw (network failure or a body that is not
      JSON), or a JSON reply with its `ok` status and its `word_count` field. A
      JSON number reaches JavaScript exactly only up to 2^53 - 1, so the count
      is a `SafeCount`. */
  datatype SaveOutcome = SaveUnanswered | SaveAnswered(ok: bool, wordCount: Option<SafeCount>)

  const EmptyContentMessage := "Please paste or write the chapter content before saving."
  const PrepareFailedMessage := "Failed to prepare generation"
  const SaveFailedMessage := "Save failed"
  const SavedPrefix := "Saved. Word count: "

  /** `${data.word_count}`: a missing field renders as "undefined". */
  function FieldText(wordCount: Option<SafeCount>): string {
    match wordCount
    case None => "undefined"
    case Some(n) => DecimalString(n)
  }

  /** "Saved. Word count: N". */
  function SavedMessage(wordCount: Option<SafeCount>): string {
    SavedPrefix + FieldText(wordCount)
  }

  predicate IsSavedMessage(message: string) {
    SavedPrefix <= message
  }

  /** The success message shows the count the server reported, and only that count. */
  lemma SavedMessageShowsCount(m: SafeCount, n: SafeCount)
    requires SavedMessage(Some(m)) == SavedMessage(Some(n))
    ensures m == n
  {
    assert SavedMessage(Some(m))[|SavedPrefix|..] == DecimalString(m);
    assert SavedMessage(Some(n))[|SavedPrefix|..] == DecimalString(n);
    DecimalInjective(m, n);
  }

  /** `plan?.resolved_pov`: absent when nothing has been prepared. */
  function PovUsed(plan: Option<Plan>): (pov: Option<string>)
    ensures pov == None <==> plan == None
    ensures plan != None ==> pov.value == plan.value.resolvedPov
  {
    match plan
    case None => None
    case Some(p) => Some(p.resolvedPov)
  }

  // ---------------------------------------------------------------------------
  // Editor state and its transitions

  /** The component state of lines 6-12 (the fetched chapter list is not part of it). */
  datatype EditorState = EditorState(
    selected: nat,
    plan: Option<Plan>,
    saving: bool,
    content: string,
    title: string,
    overridePov: PovChoice,
    message: string)

  function InitialState(): EditorState {
    EditorState(1, None, false, "", "", Auto, "")
  }

  /** Lines 23-24: message and plan are cleared before the request goes out. */
  function AfterPrepareBegin(st: EditorState): EditorState {
    st.(message := "", plan := None)
  }

  /** Line 28: the prepare request for the selected chapter and override. */
  function PrepareRequestOf(st: EditorState, projectId: string): PrepareRequest {
    PrepareRequest(projectId, st.selected, OverridePayload(st.overridePov))
  }

  /** Lines 30-36: a reply that is not `ok` sets the failure message; a plan
      becomes the current plan and its title the chapter title. */
  function AfterPrepareEnd(st: EditorState, outcome: PrepareOutcome): EditorState {
    match outcome
    case PrepareUnanswered => st
    case PrepareRejected => st.(message := PrepareFailedMessage)
    case PrepareAnswered(p) => st.(plan := Some(p), title := p.chapterTitle)
  }

  /** Lines 40-42: empty content only sets the message; otherwise `saving` is
      raised and the message cleared. */
  function AfterSaveBegin(st: EditorState): EditorState {
    if st.content == "" then st.(message := EmptyContentMessage)
    else st.(saving := true, message := "")
  }

  /** Line 47: the save request, sent only when the guard at line 40 lets it through. */
  function SaveRequestOf(st: EditorState, projectId: string): Option<SaveRequest> {
    if st.content == "" then None
    else Some(SaveRequest(projectId, st.selected, st.title, st.content, PovUsed(st.plan)))
  }

  /** Lines 49-53 as written: every JSON reply is reported as saved, whatever its status. */
  function SaveMessageAsWritten(outcome: SaveOutcome): string {
    match outcome
    case SaveUnanswered => SaveFailedMessage
    case SaveAnswered(_, wordCount) => SavedMessage(wordCount)
  }

  /** Lines 49-53 with the status checked, as `prepare` does at line 30. */
  function SaveMessage(outcome: SaveOutcome): string {
    match outcome
    case SaveUnanswered => SaveFailedMessage
    case SaveAnswered(ok, wordCount) => if ok then SavedMessage(wordCount) else SaveFailedMessage
  }

  /** Lines 49-56: the message reports the outcome and `saving` is lowered. */
  function AfterSaveEnd(st: EditorState, outcome: SaveOutcome): EditorState {
    st.(message := SaveMessage(outcome), saving := false)
  }

  // ---------------------------------------------------------------------------
  // Properties of the transitions

  /** A full prepare touches only plan, title and message, and ends in one of
      three ways according to the reply. */
  lemma PrepareOutcomes(st: EditorState, outcome: PrepareOutcome)
    ensures var st' := AfterPrepareEnd(AfterPrepareBegin(st), outcome);
      && st'.content == st.content && st'.selected == st.selected
      && st'.overridePov == st.overridePov && st'.saving == st.saving
      && (outcome.PrepareAnswered? ==>
            st'.plan == Some(outcome.plan) && st'.title == outcome.plan.chapterTitle && st'.message == "")
      && (!outcome.PrepareAnswered? ==> st'.plan == None && st'.title == st.title)
      && (outcome.PrepareRejected? ==> st'.message == PrepareFailedMessage)
      && (outcome.PrepareUnanswered? ==> st'.message == "")
  {
  }

  /** Preparing twice with the same reply leaves the same state as preparing once:
      nothing from an earlier prepare survives into the next. */
  lemma PrepareIdempotent(st: EditorState, outcome: PrepareOutcome)
    ensures var once := AfterPrepareEnd(AfterPrepareBegin(st), outcome);
      AfterPrepareEnd(AfterPrepareBegin(once), outcome) == once
  {
  }

  /** The prepare request carries the selected chapter, and null exactly when
      the override is Auto. */
  lemma PrepareRequestPayload(st: EditorState, projectId: string)
    ensures PrepareRequestOf(st, projectId).number == st.selected
    ensures PrepareRequestOf(st, projectId).overridePov == None <==> st.overridePov == Auto
  {
  }

  /** Empty content: the message asks for content, no request is sent, and
      nothing else changes. */
  lemma EmptyContentBlocksSave(st: EditorState, projectId: string)
    requires st.content == ""
    ensures SaveRequestOf(st, projectId) == None
    ensures AfterSaveBegin(st) == st.(message := EmptyContentMessage)
  {
  }

  /** The guard tests only for the empty string: whitespace-only content has no
      words, is flagged, and is still sent. */
  lemma WhitespaceOnlyContentIsSent(st: EditorState, projectId: string)
    requires st.content != "" && AllSpace(st.content)
    ensures WordCount(st.content) == 0 && OutOfRange(WordCount(st.content))
    ensures SaveRequestOf(st, projectId).Some?
  {
    BlankTextFlagged(st.content);
  }

  /** The range flag never blocks a save: any non-empty content is sent,
      with the selected chapter, the edited title and content, and the plan's POV. */
  lemma SaveRequestPayload(st: EditorState, projectId: string)
    requires st.content != ""
    ensures SaveRequestOf(st, projectId) ==
            Some(SaveRequest(projectId, st.selected, st.title, st.content, PovUsed(st.plan)))
    ensures SaveRequestOf(st, projectId).value.povUsed == None <==> st.plan == None
  {
  }

  /** A save of non-empty content raises `saving` while the request is out and
      lowers it afterwards, whatever the outcome; only the message and the flag
      change. */
  lemma SaveCycle(st: EditorState, outcome: SaveOutcome)
    requires st.content != "" && !st.saving
    ensures AfterSaveBegin(st).saving && AfterSaveBegin(st).message == ""
    ensures AfterSaveEnd(AfterSaveBegin(st), outcome) == st.(message := SaveMessage(outcome))
  {
  }

  /** With the status checked, a save is reported as saved exactly when the
      server accepted it. */
  lemma SavedOnlyWhenAccepted(outcome: SaveOutcome)
    ensures IsSavedMessage(SaveMessage(outcome)) <==> outcome.SaveAnswered? && outcome.ok
  {
    assert SaveFailedMessage[4] != SavedPrefix[4];
    if outcome.SaveAnswered? && outcome.ok {
      assert SaveMessage(outcome) == SavedPrefix + FieldText(outcome.wordCount);
    }
  }

  /** As written, a reply with an error status and a JSON body (for instance a
      "not found" detail without `word_count`) is reported as saved. */
  lemma RejectedSaveReportedAsSaved()
    ensures SaveMessageAsWritten(SaveAnswered(false, None)) == "Saved. Word count: undefined"
    ensures IsSavedMessage(SaveMessageAsWritten(SaveAnswered(false, None)))
  {
    assert SaveMessageAsWritten(SaveAnswered(false, None)) == SavedPrefix + "undefined";
  }

  /** The two readings agree on every reply the server accepted. */
  lemma SaveMessagesAgreeWhenAccepted(outcome: SaveOutcome)
    requires !(outcome.SaveAnswered? && !outcome.ok)
    ensures SaveMessage(outcome) == SaveMessageAsWritten(outcome)
  {
  }

  // ---------------------------------------------------------------------------
  // The component

  class ChapterEditor {
    const projectId: string
    /** `project.chapter_count`: how many chapter buttons are shown. */
    const chapterCount: nat

    var selected: nat
    var plan: Option<Plan>
    var saving: bool
    var content: string
    var title: string
    var overridePov: PovChoice
    var message: string

    function State(): EditorState
      reads this
    {
      EditorState(selected, plan, saving, content, title, overridePov, message)
    }

    /** The selected chapter is the initial 1 or one of the buttons' numbers. */
    ghost predicate Valid()
      reads this
    {
      selected == 1 || selected in ChapterNumbers(chapterCount)
    }

    /** Line 59: the count shown under the text area. */
    function ShownWordCount(): nat
      reads this
    {
      WordCount(content)
    }

    /** Line 104: the count is shown in red. */
    function CountFlagged(): bool
      reads this
    {
      OutOfRange(ShownWordCount())
    }

    constructor (projectId: string, chapterCount: nat)
      ensures this.projectId == projectId && this.chapterCount == chapterCount
      ensures State() == InitialState() && Valid()
    {
      this.projectId := projectId;
      this.chapterCount := chapterCount;
      selected := 1;
      plan := None;
      saving := false;
      content := "";
      title := "";
      overridePov := Auto;
      message := "";
    }

    /** Line 65: a chapter button was clicked. */
    method SelectChapter(n: nat)
      requires Valid() && n in ChapterNumbers(chapterCount)
      modifies this
      ensures State() == old(State()).(selected := n) && Valid()
    {
      selected := n;
    }

    /** Line 71: an option of the override select was picked. */
    method ChooseOverride(choice: PovChoice)
      requires Valid()
      modifies this
      ensures Valid()
      ensures State() == old(State()).(overridePov := choice)
    {
      overridePov := choice;
    }

    /** Line 101: the title input was edited. */
    method EditTitle(newTitle: string)
      requires Valid()
      modifies this
      ensures Valid()
      ensures State() == old(State()).(title := newTitle)
    {
      title := newTitle;
    }

    /** Line 102: the text area was edited. */
    method EditContent(newContent: string)
      requires Valid()
      modifies this
      ensures Valid()
      ensures State() == old(State()).(content := newContent)
      ensures ShownWordCount() == WordCount(newContent)
    {
      content := newContent;
    }

    /** Lines 22-29: `prepare` up to its `await`; returns the request it sends. */
    method BeginPrepare() returns (request: PrepareRequest)
      requires Valid()
      modifies this
      ensures Valid()
      ensures request.number == 1 || request.number in ChapterNumbers(chapterCount)
      ensures request == PrepareRequestOf(old(State()), projectId)
      ensures State() == AfterPrepareBegin(old(State()))
    {
      message := "";
      plan := None;
      request := PrepareRequest(projectId, selected, OverridePayload(overridePov));
    }

    /** Lines 30-36: `prepare` after its `await`. */
    method EndPrepare(outcome: PrepareOutcome)
      requires Valid()
      modifies this
      ensures Valid()
      ensures State() == AfterPrepareEnd(old(State()), outcome)
    {
      match outcome {
        case PrepareUnanswered =>
        case PrepareRejected =>
          message := PrepareFailedMessage;
          return;
        case PrepareAnswered(p) =>
          plan := Some(p);
          title := p.chapterTitle;
      }
    }

    /** Lines 39-48: `save` up to its `await`; returns the request it sends, if
        any. The button is disabled while a save is in flight (line 105). */
    method BeginSave() returns (request: Option<SaveRequest>)
      requires Valid() && !saving
      modifies this
      ensures Valid()
      ensures request.Some? ==> request.value.number == 1 || request.value.number in ChapterNumbers(chapterCount)
      ensures request == SaveRequestOf(old(State()), projectId)
      ensures State() == AfterSaveBegin(old(State()))
      ensures request.Some? <==> saving
    {
      if content == "" {
        message := EmptyContentMessage;
        return None;
      }
      saving := true;
      message := "";
      request := Some(SaveRequest(projectId, selected, title, content, PovUsed(plan)));
    }

    /** Lines 49-56: `save` after its `await`, with the reply's status checked. */
    method EndSave(outcome: SaveOutcome)
      requires Valid() && saving
      modifies this
      ensures Valid()
      ensures State() == AfterSaveEnd(old(State()), outcome)
      ensures !saving
    {
      match outcome {
        case SaveAnswered(true, wordCount) =>
          message := SavedMessage(wordCount);
        case _ =>
          message := SaveFailedMessage;
      }
      saving := false;
    }
  }
}
