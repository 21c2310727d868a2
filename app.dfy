/**
 * The page (App.tsx): its three pieces of state, the generate handler that
 * resets them, awaits the service and records its outcome, and the conditions
 * under which the spinner, the error banner and the results grid render.
 */
module App {
  import opened Wrappers
  import opened Types
  import opened GeminiService

  const UnknownErrorMessage := "An unknown error occurred. Please try again."

  /** What the catch block shows: an `Error`'s message, or the generic text for anything else thrown. */
  function ErrorMessage(thrown: Thrown): (m: string)
    ensures thrown.ErrorObject? ==> m == thrown.message
    ensures thrown.NonErrorValue? ==> m == UnknownErrorMessage && m != ""
  {
    match thrown
    case ErrorObject(message) => message
    case NonErrorValue => UnknownErrorMessage
  }

  class App {
    var results: seq<GeneratedResult>
    var isLoading: bool
    /** `None` is `null`. */
    var error: Option<string>

    /** No results, not loading, no error. */
    constructor()
      ensures results == [] && !isLoading && error == None
    {
      results := [];
      isLoading := false;
      error := None;
    }

    /** `{isLoading && …}`: the spinner. */
    predicate ShowsSpinner()
      reads this
    {
      isLoading
    }

    /**
     * `{error && …}` as written: a string is truthy only when non-empty, so an
     * empty message hides the banner.
     */
    predicate ShowsErrorBannerAsWritten()
      reads this
    {
      error.Some? && error.value != ""
    }

    /** The corrected banner condition: shown whenever an error has been recorded, even an empty one. */
    predicate ShowsErrorBanner()
      reads this
    {
      error.Some?
    }

    /** `{!isLoading && results.length > 0 && …}`: the results grid. */
    predicate ShowsResultsGrid()
      reads this
    {
      !isLoading && |results| > 0
    }

    /** The start of the handler: loading, with the previous error and results cleared. */
    method Start()
      modifies this
      ensures isLoading && error == None && results == []
      ensures ShowsSpinner() && !ShowsErrorBanner() && !ShowsResultsGrid()
    {
      isLoading := true;
      error := None;
      results := [];
    }

    /**
     * The rest of the handler once the service has settled: the data on
     * success, the error message otherwise, and in both cases loading ends.
     */
    method Settle(outcome: Result<seq<GeneratedResult>, Thrown>)
      modifies this
      ensures !isLoading
      ensures outcome.Ok? ==> results == outcome.value && error == old(error)
      ensures outcome.Err? ==> error == Some(ErrorMessage(outcome.error)) && results == old(results)
    {
      if outcome.Ok? {
        results := outcome.value;
      } else {
        error := Some(ErrorMessage(outcome.error));
      }
      isLoading := false;
    }

    /**
     * `handleGenerate`, with the idea request's settled response and the
     * per-idea logo outcomes standing for the service's calls. Afterwards
     * nothing loads, and exactly one of "the results are non-empty" and "an
     * error is recorded" holds: the grid or the corrected banner renders. The
     * banner as written can still be hidden (`EmptyMessageShowsNothing`).
     */
    method HandleGenerate(ideaResponse: Result<Option<seq<NameIdea>>, Thrown>, outcomes: seq<LogoOutcome>)
      requires ideaResponse.Ok? && ideaResponse.value.Some? ==> |outcomes| == |ideaResponse.value.value|
      modifies this
      ensures !isLoading
      ensures ideaResponse.Err? ==>
        results == [] && error == Some(ErrorMessage(ideaResponse.error))
      ensures ideaResponse.Ok? && (ideaResponse.value.None? || ideaResponse.value.value == []) ==>
        results == [] && error == Some(NoNamesMessage)
      ensures ideaResponse.Ok? && ideaResponse.value.Some? && ideaResponse.value.value != [] ==>
        results == Aggregate(ideaResponse.value.value, outcomes) && error == None
      ensures !ShowsSpinner() && (ShowsResultsGrid() <==> !ShowsErrorBanner())
    {
      Start();
      var outcome := GenerateBusinessIdeas(ideaResponse, outcomes);
      Settle(outcome);
    }
  }

  /**
   * With the banner condition as written, an `Error` whose message is empty
   * leaves the page blank once loading ends: no spinner, no banner, no grid.
   */
  lemma EmptyMessageShowsNothing(app: App)
    requires !app.isLoading && app.results == [] && app.error == Some(ErrorMessage(ErrorObject("")))
    ensures !app.ShowsSpinner() && !app.ShowsErrorBannerAsWritten() && !app.ShowsResultsGrid()
  {
  }
}
