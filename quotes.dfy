/**
 * The quotes page: the URL it fetches quotes from, the submission form with
 * its validation, payload and reset, the mapping from a failed submission
 * to the message shown, and the theme lists. Each request is replaced by its
 * outcome, passed in.
 */
module QuoteGenerator {
  import opened Wrappers
  import opened Strings

  /**
   * fetchQuotes' URL: the theme is sent as a query parameter unless it is
   * 'all'; the limit is 3 either way.
   */
  function FetchUrl(apiUrl: string, theme: string): (url: string)
    ensures theme == "all" ==> url == apiUrl + "/quotes?limit=3"
    ensures theme != "all" ==> url == apiUrl + "/quotes?theme=" + theme + "&limit=3"
  {
    if theme == "all" then apiUrl + "/quotes?limit=3"
    else apiUrl + "/quotes?theme=" + theme + "&limit=3"
  }

  /**
   * The server can tell the themes apart from the URL: different themes give
   * different URLs, and no theme's URL is the one for 'all'. Every URL ends
   * with the limit of 3.
   */
  lemma FetchUrlDistinguishesThemes(apiUrl: string, t1: string, t2: string)
    ensures FetchUrl(apiUrl, t1) == FetchUrl(apiUrl, t2) ==> t1 == t2
    ensures var url := FetchUrl(apiUrl, t1); |url| >= 7 && url[|url| - 7..] == "limit=3"
  {
    FetchUrlEndsWithLimit(apiUrl, t1);
    if FetchUrl(apiUrl, t1) == FetchUrl(apiUrl, t2) {
      FetchUrlInjective(apiUrl, t1, t2);
    }
  }

  lemma FetchUrlEndsWithLimit(apiUrl: string, theme: string)
    ensures var url := FetchUrl(apiUrl, theme); |url| >= 7 && url[|url| - 7..] == "limit=3"
  {
    var front := if theme == "all" then apiUrl + "/quotes?" else apiUrl + "/quotes?theme=" + theme + "&";
    assert FetchUrl(apiUrl, theme) == front + "limit=3";
  }

  lemma FetchUrlInjective(apiUrl: string, t1: string, t2: string)
    requires FetchUrl(apiUrl, t1) == FetchUrl(apiUrl, t2)
    ensures t1 == t2
  {
    var u := FetchUrl(apiUrl, t1);
    var q := |apiUrl| + 8;
    assert u[q] == (if t1 == "all" then 'l' else 't');
    assert u[q] == (if t2 == "all" then 'l' else 't');
    if t1 != "all" && t2 != "all" {
      assert |t1| == |t2|;
      assert t1 == u[|apiUrl| + 14..|apiUrl| + 14 + |t1|];
      assert t2 == u[|apiUrl| + 14..|apiUrl| + 14 + |t2|];
    }
  }

  datatype Theme = Theme(id: string, name: string)

  /** The theme buttons, 'all' first. */
  const Themes: seq<Theme> := [
    Theme("all", "Surprise Me"),
    Theme("motivation", "Motivation"),
    Theme("reflection", "Reflection"),
    Theme("joy", "Joy & Hope")
  ]

  /** themes.filter(t => t.id !== 'all'): the themes a quote can be submitted under, in order. */
  function SubmissionThemes(themes: seq<Theme>): (r: seq<Theme>)
    ensures forall i :: 0 <= i < |r| ==> r[i].id != "all" && r[i] in themes
    ensures forall i :: 0 <= i < |themes| && themes[i].id != "all" ==> themes[i] in r
    ensures |r| <= |themes|
  {
    if themes == [] then []
    else (if themes[0].id != "all" then [themes[0]] else []) + SubmissionThemes(themes[1..])
  }

  /** The submission themes are the other three, in their original order. */
  lemma SubmissionThemesOfThemes()
    ensures SubmissionThemes(Themes) == Themes[1..]
  {
    assert Themes[1..][1..][1..][1..] == [];
  }

  datatype View = Generate | Submit

  /** A fetched quote. */
  datatype Quote = Quote(text: string, author: string, theme: string)

  /** The body of POST /quotes. */
  datatype QuotePayload = QuotePayload(text: string, author: string, theme: string)

  /** How a submission request ended: accepted, or refused with an HTTP status (None when there was no response). */
  datatype SubmitOutcome = Accepted | Refused(status: Option<int>, detail: Option<string>)

  /**
   * The message shown for a refused submission: the server's detail for a
   * 400 when it has one, a fixed text otherwise; a rate-limit text for 429;
   * a generic text for anything else, including no response.
   */
  function ErrorMessage(status: Option<int>, detail: Option<string>): (m: string)
    ensures status == Some(400) && detail.Some? && detail.value != "" ==> m == detail.value
    ensures status == Some(400) && (detail.None? || detail.value == "") ==> m == "Invalid input (profanity or length)."
    ensures status == Some(429) ==> m == "You're doing that too much. Slow down!"
    ensures status != Some(400) && status != Some(429) ==> m == "Failed to submit quote."
  {
    if status == Some(400) then
      if detail.Some? && detail.value != "" then detail.value else "Invalid input (profanity or length)."
    else if status == Some(429) then "You're doing that too much. Slow down!"
    else "Failed to submit quote."
  }

  /** The form's named inputs. */
  datatype Field = TextField | AuthorField | ThemeField

  /** The page's state. */
  class QuotePage {
    var quotes: seq<Quote>
    var selectedTheme: string
    var loading: bool
    var view: View
    var text: string
    var author: string
    var formTheme: string
    var isSubmitting: bool

    constructor ()
      ensures quotes == [] && selectedTheme == "all" && !loading && view == Generate
      ensures text == "" && author == "" && formTheme == "motivation" && !isSubmitting
    {
      quotes := [];
      selectedTheme := "all";
      loading := false;
      view := Generate;
      text, author, formTheme := "", "", "motivation";
      isSubmitting := false;
    }

    /** fetchQuotes up to the request: loading starts and the URL for the theme is requested. */
    method BeginFetch(apiUrl: string, theme: string) returns (url: string)
      modifies this
      ensures loading && url == FetchUrl(apiUrl, theme)
      ensures quotes == old(quotes) && selectedTheme == old(selectedTheme) && view == old(view)
      ensures text == old(text) && author == old(author) && formTheme == old(formTheme)
      ensures isSubmitting == old(isSubmitting)
    {
      loading := true;
      url := FetchUrl(apiUrl, theme);
    }

    /** fetchQuotes after the request: the quotes are replaced on success and kept on failure; loading ends. */
    method FinishFetch(outcome: Option<seq<Quote>>)
      modifies this
      ensures !loading && quotes == (if outcome.Some? then outcome.value else old(quotes))
      ensures selectedTheme == old(selectedTheme) && view == old(view)
      ensures text == old(text) && author == old(author) && formTheme == old(formTheme)
      ensures isSubmitting == old(isSubmitting)
    {
      if outcome.Some? {
        quotes := outcome.value;
      }
      loading := false;
    }

    /** handleThemeChange: the theme is selected and its quotes requested. */
    method ChangeTheme(apiUrl: string, theme: string) returns (url: string)
      modifies this
      ensures selectedTheme == theme && loading && url == FetchUrl(apiUrl, theme)
      ensures quotes == old(quotes) && view == old(view)
      ensures text == old(text) && author == old(author) && formTheme == old(formTheme)
      ensures isSubmitting == old(isSubmitting)
    {
      selectedTheme := theme;
      url := BeginFetch(apiUrl, theme);
    }

    /** handleInputChange: one form field takes the typed value; the others are kept. */
    method Edit(field: Field, value: string)
      modifies this
      ensures text == (if field == TextField then value else old(text))
      ensures author == (if field == AuthorField then value else old(author))
      ensures formTheme == (if field == ThemeField then value else old(formTheme))
      ensures quotes == old(quotes) && selectedTheme == old(selectedTheme) && loading == old(loading)
      ensures view == old(view) && isSubmitting == old(isSubmitting)
    {
      match field
      case TextField => text := value;
      case AuthorField => author := value;
      case ThemeField => formTheme := value;
    }

    /**
     * handleSubmit up to the request: a blank text is refused and nothing
     * changes; otherwise the request carries the text as typed, the author or
     * "Anonymous", and the theme, and the form is marked as submitting.
     */
    method BeginSubmit() returns (payload: Option<QuotePayload>)
      modifies this
      ensures payload.None? <==> AllWhitespace(old(text))
      ensures payload.Some? ==> payload.value.text == text && payload.value.theme == formTheme
      ensures payload.Some? ==> payload.value.author == if author == "" then "Anonymous" else author
      ensures isSubmitting == (payload.Some? || old(isSubmitting))
      ensures text == old(text) && author == old(author) && formTheme == old(formTheme)
      ensures quotes == old(quotes) && selectedTheme == old(selectedTheme) && loading == old(loading)
      ensures view == old(view)
    {
      TrimEmptyIffBlank(text);
      if Trim(text) == "" {
        return None;
      }
      isSubmitting := true;
      payload := Some(QuotePayload(text, if author == "" then "Anonymous" else author, formTheme));
    }

    /**
     * handleSubmit after the request: an accepted quote resets the form and
     * returns to the generator; a refused one keeps the form and explains
     * why. Either way the form is no longer submitting.
     */
    method FinishSubmit(outcome: SubmitOutcome) returns (message: string)
      modifies this
      ensures !isSubmitting
      ensures outcome.Accepted? ==> text == "" && author == "" && formTheme == "motivation" && view == Generate
      ensures outcome.Accepted? ==> message == "Quote submitted successfully! It's now in the mix."
      ensures outcome.Refused? ==> text == old(text) && author == old(author) && formTheme == old(formTheme)
                                   && view == old(view)
      ensures outcome.Refused? ==> message == ErrorMessage(outcome.status, outcome.detail)
      ensures quotes == old(quotes) && selectedTheme == old(selectedTheme) && loading == old(loading)
    {
      isSubmitting := false;
      match outcome
      case Accepted =>
        message := "Quote submitted successfully! It's now in the mix.";
        text, author, formTheme := "", "", "motivation";
        view := Generate;
      case Refused(status, detail) =>
        message := ErrorMessage(status, detail);
    }
  }

  /** A whitespace-only quote never reaches the server, and the form is left as typed. */
  method BlankIsRefused(page: QuotePage) returns (payload: Option<QuotePayload>)
    requires AllWhitespace(page.text)
    modifies page
    ensures payload.None? && page.isSubmitting == old(page.isSubmitting)
    ensures page.text == old(page.text) && page.author == old(page.author) && page.formTheme == old(page.formTheme)
  {
    payload := page.BeginSubmit();
  }
}
