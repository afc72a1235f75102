/**
  The view state of the Extractor component and the events that drive it: editing the input,
  clicking Analyze, the reply to the analysis request, the two 500 ms timers that swap the input
  for the results, the 2000 ms timer that reveals one more sentence, and the two halves of Clear.
 */
module ExtractorView {
  import opened Wrappers
  import opened InputValidator
  import opened Anchors
  import opened Highlighting

  /** The message shown when the request fails or its reply has the wrong shape. */
  const GenericError: string := "An error occurred. Please check your input and try again."

  /**
    The reply body, reduced to what the component looks at: `results.results`,
    `results.relations` and `sentences`, each `None` when missing or not an array.
   */
  datatype Payload = Payload(results: Option<seq<CenteringResult>>, relations: Option<seq<Relation>>,
                             sentences: Option<seq<string>>)

  /** The shape test: all three fields are arrays. */
  predicate ShapeOk(p: Payload) {
    p.results.Some? && p.relations.Some? && p.sentences.Some?
  }

  /** Every field of the component, for stating a whole new state at once. */
  datatype ViewState = ViewState(userInput: string, analysisResult: Option<AnalysisResult>, loading: bool,
                                 currentIndex: nat, inputVisible: bool, canRenderResults: bool,
                                 clearButtonVisible: bool, errorMessage: Option<string>,
                                 pendingHide: nat, pendingShow: nat, pendingClear: nat)

  /** The messages the component can display. */
  predicate IsKnownMessage(m: string) {
    (exists e :: m == Message(e)) || m == GenericError
  }

  class Extractor {
    var userInput: string
    var analysisResult: Option<AnalysisResult>
    var loading: bool
    var currentIndex: nat
    var inputVisible: bool
    var canRenderResults: bool
    var clearButtonVisible: bool
    var errorMessage: Option<string>
    /** Timers started and not yet fired: hide the input, show the results, finish a Clear. */
    var pendingHide: nat
    var pendingShow: nat
    var pendingClear: nat

    function State(): ViewState
      reads this
    {
      ViewState(userInput, analysisResult, loading, currentIndex, inputVisible, canRenderResults,
                clearButtonVisible, errorMessage, pendingHide, pendingShow, pendingClear)
    }

    /**
      The reveal cursor is 0 while nothing is stored and never passes the number of stored
      sentences; the Clear button is usable exactly while the results may be rendered; any
      message shown is one of the component's own.
     */
    ghost predicate Valid()
      reads this
    {
      && (analysisResult.None? ==> currentIndex == 0)
      && (analysisResult.Some? ==> currentIndex <= |analysisResult.value.results|)
      && canRenderResults == clearButtonVisible
      && (errorMessage.Some? ==> IsKnownMessage(errorMessage.value))
    }

    /** The component as first mounted, with the input its parent holds. */
    constructor (input: string)
      ensures Valid()
      ensures State() == ViewState(input, None, false, 0, true, false, false, None, 0, 0, 0)
    {
      userInput := input;
      analysisResult := None;
      loading := false;
      currentIndex := 0;
      inputVisible := true;
      canRenderResults := false;
      clearButtonVisible := false;
      errorMessage := None;
      pendingHide := 0;
      pendingShow := 0;
      pendingClear := 0;
    }

    /** The textarea's `onChange`, available while the input section is shown. */
    method Edit(text: string)
      requires Valid() && inputVisible
      modifies this
      ensures Valid()
      ensures State() == old(State()).(userInput := text)
    {
      userInput := text;
    }

    /**
      A click on Analyze (shown with the input, disabled while loading): an invalid input only
      sets its message; a valid one clears the message, starts loading, hides the results and
      the Clear button, and sends the request.
     */
    method Submit() returns (sent: bool)
      requires Valid() && inputVisible && !loading
      modifies this
      ensures Valid()
      ensures sent <==> Validate(old(userInput)).None?
      ensures !sent ==> State() == old(State()).(errorMessage := Some(Message(Validate(old(userInput)).value)))
      ensures sent ==> State() == old(State()).(errorMessage := None, loading := true,
                                                  canRenderResults := false, clearButtonVisible := false)
    {
      var err := ValidateInput(userInput);
      if err.Some? {
        errorMessage := Some(Message(err.value));
        return false;
      }
      errorMessage := None;
      loading := true;
      canRenderResults := false;
      clearButtonVisible := false;
      return true;
    }

    /**
      The request completes; `None` is a failed request, a non-OK status or an unreadable body.
      A reply of the right shape is stored, the cursor goes back to 0 and the hide timer starts;
      anything else sets the generic message and stores nothing. Loading ends either way.
     */
    method Reply(reply: Option<Payload>)
      requires Valid() && loading
      modifies this
      ensures Valid()
      ensures reply.Some? && ShapeOk(reply.value) ==>
                State() == old(State()).(analysisResult := Some(AnalysisResult(reply.value.results.value,
                                                                               reply.value.relations.value)),
                                         currentIndex := 0, pendingHide := old(pendingHide) + 1, loading := false)
      ensures !(reply.Some? && ShapeOk(reply.value)) ==>
                State() == old(State()).(errorMessage := Some(GenericError), loading := false)
    {
      if reply.Some? && ShapeOk(reply.value) {
        analysisResult := Some(AnalysisResult(reply.value.results.value, reply.value.relations.value));
        currentIndex := 0;
        pendingHide := pendingHide + 1;
      } else {
        errorMessage := Some(GenericError);
      }
      loading := false;
    }

    /** The first 500 ms timer fires: the input section goes and the second timer starts. */
    method HideInputTimer()
      requires Valid() && pendingHide > 0
      modifies this
      ensures Valid()
      ensures State() == old(State()).(inputVisible := false, pendingHide := old(pendingHide) - 1,
                                       pendingShow := old(pendingShow) + 1)
    {
      inputVisible := false;
      pendingHide := pendingHide - 1;
      pendingShow := pendingShow + 1;
    }

    /** The second 500 ms timer fires: the results may be rendered and Clear becomes usable. */
    method ShowResultsTimer()
      requires Valid() && pendingShow > 0
      modifies this
      ensures Valid()
      ensures State() == old(State()).(canRenderResults := true, clearButtonVisible := true,
                                       pendingShow := old(pendingShow) - 1)
    {
      canRenderResults := true;
      clearButtonVisible := true;
      pendingShow := pendingShow - 1;
    }

    /** The reveal timer is running: a result is stored and the cursor is short of its end. */
    predicate RevealArmed()
      reads this
    {
      analysisResult.Some? && currentIndex < |analysisResult.value.results|
    }

    /** The 2000 ms reveal timer fires: exactly one more sentence is revealed. */
    method RevealTimer()
      requires Valid() && RevealArmed()
      modifies this
      ensures Valid()
      ensures State() == old(State()).(currentIndex := old(currentIndex) + 1)
    {
      currentIndex := currentIndex + 1;
    }

    /**
      Clear is activated: the button is rendered whenever a result is stored, and while it is
      faded out it only ignores the pointer, so the keyboard can still press it (during the fade-in,
      or twice before the reset timer fires). The results and the button go, the message is
      cleared and the reset timer starts.
     */
    method ClearClick()
      requires Valid() && analysisResult.Some?
      modifies this
      ensures Valid()
      ensures State() == old(State()).(canRenderResults := false, clearButtonVisible := false,
                                       errorMessage := None, pendingClear := old(pendingClear) + 1)
    {
      canRenderResults := false;
      clearButtonVisible := false;
      errorMessage := None;
      pendingClear := pendingClear + 1;
    }

    /** The Clear timer fires: the result is dropped, the input emptied, the cursor reset and the input shown. */
    method ClearTimer()
      requires Valid() && pendingClear > 0
      modifies this
      ensures Valid()
      ensures State() == old(State()).(analysisResult := None, userInput := "", currentIndex := 0,
                                       inputVisible := true, pendingClear := old(pendingClear) - 1)
    {
      analysisResult := None;
      userInput := "";
      currentIndex := 0;
      inputVisible := true;
      pendingClear := pendingClear - 1;
    }

    /**
      The results panel: present exactly when a result is stored and rendering is allowed, one
      row per stored sentence, the rows up to the cursor revealed and the others hidden.
     */
    function Panel(): (p: Option<seq<SentenceView>>)
      reads this
      ensures p.Some? <==> analysisResult.Some? && canRenderResults
      ensures p.Some? ==> |p.value| == |analysisResult.value.results| &&
                          forall i :: 0 <= i < |p.value| ==> (p.value[i].revealed <==> i <= currentIndex)
    {
      if analysisResult.Some? && canRenderResults then Some(SentenceViews(analysisResult.value, currentIndex))
      else None
    }
  }
}
