/**
 * The request handler: the three form fields are checked (dialect, then
 * mode, then characters), and only then are the characters fetched and the
 * results aggregated into the report. Any check that fails gives an
 * `"Error: "` string instead.
 */
module Pipeline {
  import opened Wrappers
  import opened Seqs
  import opened PyStr
  import opened Dialects
  import opened Validation
  import opened Fetching
  import opened Aggregation

  /** The three form fields, as submitted. */
  datatype Form = Form(dialect: string, mode: string, characters: string)

  /** What the checks produce: the dialect label, the mode and the validated characters. */
  datatype Plan = Plan(dialect: string, mode: Mode, characters: string)

  /** `mode.lower()` checked against the two accepted spellings. */
  function ParseMode(mode: string): (r: Option<Mode>)
    ensures r.Some? <==> Lower(mode) in {"romanisation", "ipa"}
    ensures r == Some(Romanisation) <==> Lower(mode) == "romanisation"
  {
    var m := Lower(mode);
    if m == "romanisation" then Some(Romanisation)
    else if m == "ipa" then Some(Ipa)
    else None
  }

  /**
   * The checks, in the handler's order; a failure carries `str(e)` of the
   * exception: empty for a bare `ValueError`, "Invalid mode" for the mode.
   * What passes on is one of the twelve labels and the traditional-script
   * characters with all whitespace deleted.
   */
  function Prepare(form: Form, u: Unicode): (r: Result<Plan, string>)
    ensures r.Failure? ==> r.error == "" || r.error == "Invalid mode"
    ensures r.Success? ==> r.value.dialect in Labels
    ensures r.Success? ==> r.value.characters == u.toTraditional(RemoveWhitespace(form.characters))
  {
    ValidateAfterStrip(form.characters, u);
    match DialectConverter(Strip(form.dialect))
    case None => Failure("")
    case Some(dialect) =>
      match ParseMode(form.mode)
      case None => Failure("Invalid mode")
      case Some(mode) =>
        match Validate(Strip(form.characters), u)
        case None => Failure("")
        case Some(characters) => Success(Plan(dialect, mode, characters))
  }

  /** The string the handler puts into the page for one submitted form; a rejected form gets an error string. */
  function Respond(form: Form, u: Unicode, net: Network): (r: string)
    ensures Prepare(form, u).Failure? ==> |r| >= 7 && r[..7] == "Error: "
  {
    match Prepare(form, u)
    case Failure(e) => "Error: " + e
    case Success(plan) => Render(FetchAll(plan.characters, plan.dialect, plan.mode, u, net), plan.mode)
  }

  /** `index` for a POST: the checks, then the fetches and the aggregation loop, or the error string. */
  method Index(form: Form, u: Unicode, net: Network) returns (result: string)
    ensures result == Respond(form, u, net)
  {
    match Prepare(form, u)
    case Failure(e) =>
      result := "Error: " + e;
    case Success(plan) =>
      var results := FetchAll(plan.characters, plan.dialect, plan.mode, u, net);
      result := Aggregate(results, plan.mode);
  }

  /** The dialect is checked first: an unknown dialect fails whatever the other fields hold. */
  lemma DialectCheckedFirst(form: Form, u: Unicode, net: Network)
    requires Title(Strip(form.dialect)) !in Aliases
    ensures Respond(form, u, net) == "Error: "
  {
  }

  /** The mode is checked second, case-insensitively, with its own message. */
  lemma ModeCheckedSecond(form: Form, u: Unicode, net: Network)
    requires Title(Strip(form.dialect)) in Aliases
    requires Lower(form.mode) !in {"romanisation", "ipa"}
    ensures Respond(form, u, net) == "Error: " + "Invalid mode"
  {
  }

  /** The characters are checked last. */
  lemma CharactersCheckedThird(form: Form, u: Unicode, net: Network, i: nat)
    requires Title(Strip(form.dialect)) in Aliases
    requires Lower(form.mode) in {"romanisation", "ipa"}
    requires i < |form.characters| && !IsSpace(form.characters[i]) && !Allowed(form.characters[i], u)
    ensures Respond(form, u, net) == "Error: "
  {
    ValidateAfterStrip(form.characters, u);
  }

  /** A form is accepted exactly when all three checks pass. */
  lemma AcceptedIffChecksPass(form: Form, u: Unicode)
    ensures Prepare(form, u).Success? <==>
      && Title(Strip(form.dialect)) in Aliases
      && Lower(form.mode) in {"romanisation", "ipa"}
      && Validate(form.characters, u).Some?
  {
    var dialect := DialectConverter(Strip(form.dialect));
    var mode := ParseMode(form.mode);
    var characters := Validate(Strip(form.characters), u);
    ValidateAfterStrip(form.characters, u);
    assert Prepare(form, u).Success? <==> dialect.Some? && mode.Some? && characters.Some?;
  }

  /**
   * A rejected form starts no fetch: its response is an error string, and the
   * same whatever the network would have answered.
   */
  lemma RejectionFetchesNothing(form: Form, u: Unicode, n1: Network, n2: Network)
    requires Prepare(form, u).Failure?
    ensures Respond(form, u, n1) == Respond(form, u, n2)
    ensures |Respond(form, u, n1)| >= 7 && Respond(form, u, n1)[..7] == "Error: "
  {
  }

  /**
   * An accepted form is answered by the report over one result per
   * non-punctuation character of the validated string, in order.
   */
  lemma AcceptedReport(form: Form, u: Unicode, net: Network)
    requires Prepare(form, u).Success?
    ensures var plan := Prepare(form, u).value;
      var results := FetchAll(plan.characters, plan.dialect, plan.mode, u, net);
      && plan.characters == u.toTraditional(RemoveWhitespace(form.characters))
      && plan.dialect in Labels
      && |Primaries(results, plan.mode)| == |Filter(plan.characters, Fetched(u))|
      && Respond(form, u, net) ==
        (if results == [] then "" else Join(" ", Primaries(results, plan.mode)) + " ")
        + AlternativesHeading + Join(" ", AltGroups(results, plan.mode))
  {
    ValidateAfterStrip(form.characters, u);
    var plan := Prepare(form, u).value;
  }

  /** A character whose fetch failed still has its slot: the sentinel, with no alternates. */
  lemma DegradedEntry(results: seq<(char, string)>, mode: Mode, i: nat)
    requires i < |results| && results[i].1 == NoInfo
    ensures Primaries(results, mode)[i] == (if mode == Romanisation then NoInfo else "(No Info)")
    ensures AltGroups(results, mode)[i] == ""
  {
    SentinelResult(results[i].0);
  }
}
