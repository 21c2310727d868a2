/**
 * The input form (components/GeneratorForm.tsx): two text fields, a submit
 * handler that hands the typed values to the page, and the submit button's
 * disabled state. The loading flag is a property the page passes in.
 */
module GeneratorForm {
  import opened Wrappers
  import opened Types
  import opened Text

  class GeneratorForm {
    /** The industry field, exactly as typed. */
    var industry: string
    /** The optional style preferences, exactly as typed. */
    var preferences: string

    /** Both fields start empty. */
    constructor()
      ensures industry == "" && preferences == ""
    {
      industry := "";
      preferences := "";
    }

    /** The industry input's change handler. */
    method SetIndustry(value: string)
      modifies this
      ensures industry == value && preferences == old(preferences)
    {
      industry := value;
    }

    /** The preferences input's change handler. */
    method SetPreferences(value: string)
      modifies this
      ensures preferences == value && industry == old(industry)
    {
      preferences := value;
    }

    /** The submit button is disabled while loading or while the industry is blank. */
    predicate SubmitDisabled(isLoading: bool)
      reads this
    {
      isLoading || Trim(industry) == []
    }

    /**
     * The submit handler: it passes the fields on, untrimmed, exactly when the
     * industry holds a non-whitespace character and nothing is loading, which
     * is exactly when the button is enabled. `None` stands for not calling
     * `onGenerate`.
     */
    method HandleSubmit(isLoading: bool) returns (request: Option<UserInput>)
      ensures request.Some? <==> !isLoading && !AllSpace(industry)
      ensures request.Some? <==> !SubmitDisabled(isLoading)
      ensures request.Some? ==> request.value == UserInput(industry, preferences)
    {
      TrimEmptyIff(industry);
      if Trim(industry) != [] && !isLoading {
        request := Some(UserInput(industry, preferences));
      } else {
        request := None;
      }
    }
  }
}
