/** The application controller (`App`): the four pieces of state it owns and
    the handlers that change them. `handleGenerate` awaits the service, so it
    is modelled as a start step and a completion step; `HandleGenerate` runs
    the two with the service call in between. */
module Controller {
  import opened Wrappers
  import opened JsText
  import opened Json
  import opened GeminiService

  /** Shown when the title is blank (line 19): "Please enter the book title." */
  const BlankTitleMessage: string := "الرجاء إدخال عنوان الكتاب."
  /** Shown for a thrown value that is not an `Error` (line 31):
      "An unexpected error occurred." */
  const UnexpectedErrorMessage: string := "حدث خطأ غير متوقع."

  /** Line 18: `!bookTitle.trim()`. */
  predicate IsBlank(title: string) {
    Trim(title) == ""
  }

  /** Line 31: the message of an `Error`, or the fallback text. */
  function ErrorText(t: Thrown): string {
    match t
    case Error(m) => m
    case NonError => UnexpectedErrorMessage
  }

  /** Every failure of the service reaches the user as the service's own
      message: the fallback text of line 31 never appears for it. */
  lemma ServiceFailureText(t: Thrown)
    ensures ErrorText(WrapError(t)) == WrapError(t).message
    ensures IsServiceMessage(ErrorText(WrapError(t)))
    ensures ErrorText(WrapError(t)) != UnexpectedErrorMessage
    ensures ErrorText(WrapError(t)) != ""
  {
    assert UnexpectedErrorMessage[0] != 'F' && UnexpectedErrorMessage[0] != 'A';
    assert WrapError(t).message[0] == if t.Error? then 'F' else 'A';
  }

  /** A blank title is exactly one made of white space only. */
  lemma BlankExactly(title: string)
    ensures IsBlank(title) <==> AllSpace(title)
  {
    TrimBlank(title);
  }

  class App {
    var bookTitle: string
    var cardData: Option<JsonValue>
    var isLoading: bool
    var error: Option<string>

    /** Lines 12-15: empty title, no card, not loading, no error. */
    constructor ()
      ensures bookTitle == "" && cardData == None && !isLoading && error == None
      ensures FormVisible() && !ErrorVisible() && !CardVisible()
    {
      bookTitle := "";
      cardData := None;
      isLoading := false;
      error := None;
    }

    /** Line 60: the input form is shown when there is no card and nothing
        is loading. */
    predicate FormVisible()
      reads this
    {
      cardData.None? && !isLoading
    }

    /** Line 69: the spinner is shown while loading. */
    predicate SpinnerVisible()
      reads this
    {
      isLoading
    }

    /** Line 71: the error panel (with its retry button) is shown for a
        non-empty error text. */
    predicate ErrorVisible()
      reads this
    {
      error.Some? && error.value != ""
    }

    /** Line 73: the card (with its reset button) is shown when there is one. */
    predicate CardVisible()
      reads this
    {
      cardData.Some?
    }

    /** Line 63: typing into the title field. */
    method SetBookTitle(title: string)
      modifies this
      ensures bookTitle == title
      ensures cardData == old(cardData) && isLoading == old(isLoading) && error == old(error)
    {
      bookTitle := title;
    }

    /** Lines 18-25: the part of `handleGenerate` before the `await`. A blank
        title only sets the validation message; otherwise loading starts,
        the error and the card are cleared, and the title is sent to the
        service (`request`). The title itself is never changed. */
    method StartGenerate() returns (request: Option<string>)
      modifies this
      ensures bookTitle == old(bookTitle)
      ensures IsBlank(bookTitle) ==>
        && request == None
        && error == Some(BlankTitleMessage)
        && isLoading == old(isLoading) && cardData == old(cardData)
      ensures !IsBlank(bookTitle) ==>
        && request == Some(bookTitle)
        && isLoading && error == None && cardData == None
        && SpinnerVisible() && !FormVisible() && !ErrorVisible() && !CardVisible()
    {
      if IsBlank(bookTitle) {
        error := Some(BlankTitleMessage);
        request := None;
        return;
      }
      isLoading := true;
      error := None;
      cardData := None;
      request := Some(bookTitle);
    }

    /** Lines 28-34: the part of `handleGenerate` after the `await`. A
        returned record becomes the card; a thrown value becomes the error
        text; loading ends either way. Nothing checks that this request is
        still the current one. */
    method FinishGenerate(outcome: Completion)
      modifies this
      ensures bookTitle == old(bookTitle) && !isLoading
      ensures outcome.Returned? ==> cardData == Some(outcome.value) && error == old(error)
      ensures outcome.Threw? ==>
        error == Some(ErrorText(outcome.thrown)) && cardData == old(cardData)
    {
      match outcome {
        case Returned(data) =>
          cardData := Some(data);
        case Threw(t) =>
          error := Some(ErrorText(t));
      }
      isLoading := false;
    }

    /** `handleGenerate` from start to finish, with the model's `response`
        and the parser as inputs. It is also the retry action (line 71), so
        a retry sends the unchanged title again. Afterwards there is either
        a card that passed the shape check and no error, or a service error
        message and no card. */
    method HandleGenerate(response: ModelResponse, parse: string -> ParseOutcome)
      returns (request: Option<string>)
      modifies this
      ensures bookTitle == old(bookTitle)
      ensures IsBlank(bookTitle) ==>
        && request == None
        && error == Some(BlankTitleMessage)
        && isLoading == old(isLoading) && cardData == old(cardData)
      ensures !IsBlank(bookTitle) ==>
        && request == Some(bookTitle)
        && !isLoading
        && (cardData.Some? <==> error.None?)
        && (cardData.Some? <==>
              response.Responded? && parse(Payload(response.text)).Parsed?
              && Accepts(parse(Payload(response.text)).value))
        && (cardData.Some? ==>
              cardData.value == parse(Payload(response.text)).value && CardVisible() && !FormVisible())
        && (error.Some? ==>
              IsServiceMessage(error.value) && ErrorVisible() && FormVisible())
    {
      request := StartGenerate();
      if request.Some? {
        var outcome := GenerateBookCard(response, parse);
        FinishGenerate(outcome);
      }
    }

    /** Lines 37-42: back to the initial state, all four fields at once. */
    method HandleReset()
      modifies this
      ensures bookTitle == "" && cardData == None && error == None && !isLoading
      ensures FormVisible() && !ErrorVisible() && !CardVisible() && !SpinnerVisible()
    {
      bookTitle := "";
      cardData := None;
      error := None;
      isLoading := false;
    }
  }
}
