/**
 * Result aggregation: each character's raw text is split into tokens, the
 * first token is the primary pronunciation and the others become tagged
 * alternates; the report lists the primaries, then the alternates.
 */
module Aggregation {
  import opened PyStr
  import opened Fetching

  /** The literal that separates the primaries from the alternates (spelling as in the output). */
  const AlternativesHeading: string := "|| Alternative Pronounciations: "

  /** Python's `p[1:-1]` applied to every piece. */
  function InnerAll(pieces: seq<string>): (r: seq<string>)
    ensures |r| == |pieces|
    ensures forall i :: 0 <= i < |r| ==> r[i] == Inner(pieces[i])
  {
    seq(|pieces|, i requires 0 <= i < |pieces| => Inner(pieces[i]))
  }

  /**
   * The tokens of a raw pronunciation: split on "/" for romanisation; for
   * IPA split on ", " and cut one delimiter character off each end.
   */
  function Tokens(raw: string, mode: Mode): (r: seq<string>)
    ensures |r| >= 1
  {
    match mode
    case Romanisation => Split(raw, "/")
    case Ipa => InnerAll(Split(raw, ", "))
  }

  /** One alternate, `f"{orchar}:{token} "`. */
  function Alternate(c: char, token: string): (r: string)
    ensures |r| == |token| + 3
  {
    [c] + ":" + token + " "
  }

  /** The alternates of one character: every token but the first, tagged with the character. */
  function Alternates(c: char, tokens: seq<string>): (r: seq<string>)
    requires |tokens| >= 1
    ensures |r| == |tokens| - 1
    ensures forall i :: 0 <= i < |r| ==> r[i] == Alternate(c, tokens[i + 1])
  {
    seq(|tokens| - 1, i requires 0 <= i < |tokens| - 1 => Alternate(c, tokens[i + 1]))
  }

  /** The primary pronunciation of one result: its first token. */
  function Primary(result: (char, string), mode: Mode): (r: string)
  {
    Tokens(result.1, mode)[0]
  }

  /** The alternates of one result, joined by single spaces. */
  function AltGroup(result: (char, string), mode: Mode): (r: string)
  {
    Join(" ", Alternates(result.0, Tokens(result.1, mode)))
  }

  function Primaries(results: seq<(char, string)>, mode: Mode): (r: seq<string>)
    ensures |r| == |results|
  {
    seq(|results|, i requires 0 <= i < |results| => Primary(results[i], mode))
  }

  function AltGroups(results: seq<(char, string)>, mode: Mode): (r: seq<string>)
    ensures |r| == |results|
  {
    seq(|results|, i requires 0 <= i < |results| => AltGroup(results[i], mode))
  }

  /**
   * The report, `" ".join(output)` once the heading and the alternate groups
   * are appended: the primaries joined by single spaces, a space if there was
   * any, the heading, then the alternate groups joined by spaces.
   */
  function Render(results: seq<(char, string)>, mode: Mode): (r: string)
    ensures r ==
      (if results == [] then "" else Join(" ", Primaries(results, mode)) + " ")
      + AlternativesHeading + Join(" ", AltGroups(results, mode))
  {
    var primaries := Primaries(results, mode);
    var tail := AlternativesHeading + Join(" ", AltGroups(results, mode));
    if results == [] then
      assert primaries + [tail] == [tail];
      Join(" ", primaries + [tail])
    else
      JoinSnoc(" ", primaries, tail);
      Join(" ", primaries + [tail])
  }

  /** Extending the prefix of results by one adds its primary and its alternate group. */
  lemma PrefixSnoc(results: seq<(char, string)>, i: nat, mode: Mode)
    requires i < |results|
    ensures Primaries(results[..i + 1], mode) == Primaries(results[..i], mode) + [Primary(results[i], mode)]
    ensures AltGroups(results[..i + 1], mode) == AltGroups(results[..i], mode) + [AltGroup(results[i], mode)]
  {
    assert results[..i + 1] == results[..i] + [results[i]];
  }

  /** The aggregation loop of the request handler, appending to `altprons` and `output`. */
  method Aggregate(results: seq<(char, string)>, mode: Mode) returns (report: string)
    ensures report == Render(results, mode)
  {
    var altprons: seq<string> := [];
    var output: seq<string> := [];
    for i := 0 to |results|
      invariant altprons == AltGroups(results[..i], mode)
      invariant output == Primaries(results[..i], mode)
    {
      var (orchar, raw) := results[i];
      var pronunciation: seq<string>;
      if mode == Romanisation {
        pronunciation := Split(raw, "/");
      } else {
        pronunciation := Split(raw, ", ");
        pronunciation := seq(|pronunciation|, k requires 0 <= k < |pronunciation| => Inner(pronunciation[k]));
        assert pronunciation == InnerAll(Split(raw, ", "));
      }
      assert pronunciation == Tokens(raw, mode);
      var altpron := seq(|pronunciation| - 1, k requires 0 <= k < |pronunciation| - 1 => [orchar] + ":" + pronunciation[k + 1] + " ");
      assert Join(" ", altpron) == AltGroup(results[i], mode) by {
        assert altpron == Alternates(orchar, pronunciation);
      }
      PrefixSnoc(results, i, mode);
      altprons := altprons + [Join(" ", altpron)];
      output := output + [pronunciation[0]];
    }
    assert results[..|results|] == results;
    output := output + [AlternativesHeading + Join(" ", altprons)];
    report := Join(" ", output);
  }

  /** The character tag and the token can be read back from an alternate. */
  lemma AlternateInjective(c1: char, t1: string, c2: char, t2: string)
    requires Alternate(c1, t1) == Alternate(c2, t2)
    ensures c1 == c2 && t1 == t2
  {
    var a := Alternate(c1, t1);
    assert a[0] == c1 && Alternate(c2, t2)[0] == c2;
    assert a[2..|a| - 1] == t1;
    assert Alternate(c2, t2)[2..|a| - 1] == t2;
  }

  /**
   * The romanisation primary is the raw text up to its first "/": a prefix
   * without "/", which is either all of the text or followed by a "/".
   */
  lemma RomanisationPrimary(c: char, raw: string)
    ensures var p := Primary((c, raw), Romanisation);
      && |p| <= |raw| && raw[..|p|] == p
      && Free(p, "/")
      && (p == raw || OccursAt(raw, "/", |p|))
  {
    JoinSplit(raw, "/");
    JoinStartsWithFirst("/", Split(raw, "/"));
    SplitPiecesFree(raw, "/");
  }

  /** A result has no alternates exactly when it has a single token. */
  lemma AltGroupEmptyIff(result: (char, string), mode: Mode)
    ensures AltGroup(result, mode) == "" <==> |Tokens(result.1, mode)| == 1
  {
    var tokens := Tokens(result.1, mode);
    if |tokens| >= 2 {
      JoinStartsWithFirst(" ", Alternates(result.0, tokens));
    }
  }

  /** A romanisation has alternates exactly when its raw text contains a "/". */
  lemma RomanisationAlternatesIff(c: char, raw: string)
    ensures AltGroup((c, raw), Romanisation) == "" <==> Free(raw, "/")
  {
    AltGroupEmptyIff((c, raw), Romanisation);
    SplitSingleIff(raw, "/");
  }

  /**
   * In IPA mode only the cut-off delimiters are lost: when every piece has
   * its two delimiters, putting them back around the tokens and joining with
   * ", " rebuilds the raw text.
   */
  lemma IpaTokensRejoin(raw: string)
    requires forall k :: 0 <= k < |Split(raw, ", ")| ==> |Split(raw, ", ")[k]| >= 2
    ensures var pieces := Split(raw, ", ");
      var tokens := Tokens(raw, Ipa);
      && |tokens| == |pieces|
      && Join(", ", seq(|tokens|, k requires 0 <= k < |tokens| => [pieces[k][0]] + tokens[k] + [pieces[k][|pieces[k]| - 1]])) == raw
  {
    var pieces := Split(raw, ", ");
    var tokens := Tokens(raw, Ipa);
    var rewrapped := seq(|tokens|, k requires 0 <= k < |tokens| => [pieces[k][0]] + tokens[k] + [pieces[k][|pieces[k]| - 1]]);
    forall k | 0 <= k < |tokens|
      ensures rewrapped[k] == pieces[k]
    {
      InnerRewrap(pieces[k]);
    }
    assert rewrapped == pieces;
    JoinSplit(raw, ", ");
  }

  /** In romanisation mode no information is lost: the tokens rejoin to the raw text and contain no "/". */
  lemma RomanisationTokensRejoin(raw: string)
    ensures Join("/", Tokens(raw, Romanisation)) == raw
    ensures forall i :: 0 <= i < |Tokens(raw, Romanisation)| ==> Free(Tokens(raw, Romanisation)[i], "/")
  {
    JoinSplit(raw, "/");
    SplitPiecesFree(raw, "/");
  }

  /** An IPA fragment with no ", " loses exactly its two surrounding delimiters. */
  lemma IpaSingleToken(open: char, body: string, close: char)
    requires Free([open] + body + [close], ", ")
    ensures Tokens([open] + body + [close], Ipa) == [body]
  {
    var raw := [open] + body + [close];
    SplitFree(raw, ", ");
    assert Inner(raw) == body;
  }

  /** Text without a separator gives a lone primary and no alternates. */
  lemma UnsplitResult(c: char, raw: string)
    requires Free(raw, "/")
    ensures Primary((c, raw), Romanisation) == raw
    ensures AltGroup((c, raw), Romanisation) == ""
  {
    SplitFree(raw, "/");
  }

  /** The characters of the sentinel, held apart so that its separators can be checked one by one. */
  lemma NoInfoChars()
    ensures NoInfo == [' ', '(', 'N', 'o', ' ', 'I', 'n', 'f', 'o', ')', ' ']
  {
  }

  /** The sentinel contains neither "/" nor ", ". */
  lemma NoInfoFree()
    ensures Free(NoInfo, "/") && Free(NoInfo, ", ")
  {
    NoInfoChars();
    FreeOfChar(NoInfo, '/');
    forall j | 0 <= j <= |NoInfo| ensures !OccursAt(NoInfo, ", ", j) {
      if j + 1 < |NoInfo| {
        assert NoInfo[j..j + 2] == [NoInfo[j], NoInfo[j + 1]];
      }
    }
  }

  /** Cutting the outer spaces off the sentinel. */
  lemma NoInfoInner()
    ensures Inner(NoInfo) == "(No Info)"
  {
    NoInfoChars();
  }

  /**
   * The sentinel has no "/" and no ", ": in romanisation mode it is its own
   * primary; in IPA mode its outer spaces are cut off. Neither has alternates.
   */
  lemma SentinelResult(c: char)
    ensures Primary((c, NoInfo), Romanisation) == NoInfo
    ensures Primary((c, NoInfo), Ipa) == "(No Info)"
    ensures AltGroup((c, NoInfo), Romanisation) == ""
    ensures AltGroup((c, NoInfo), Ipa) == ""
  {
    NoInfoFree();
    UnsplitResult(c, NoInfo);
    SplitFree(NoInfo, ", ");
    NoInfoInner();
    assert Tokens(NoInfo, Ipa) == [Inner(NoInfo)];
  }

  /** A romanisation with two readings: the first is primary, the second its one alternate. */
  lemma TwoReadings(c: char, first: string, second: string)
    requires forall k :: 0 <= k < |first| ==> first[k] != '/'
    requires forall k :: 0 <= k < |second| ==> second[k] != '/'
    ensures Primary((c, first + "/" + second), Romanisation) == first
    ensures AltGroup((c, first + "/" + second), Romanisation) == [c] + ":" + second + " "
  {
    SplitCharFirst(first, '/', second);
    FreeOfChar(second, '/');
    SplitFree(second, "/");
    assert Tokens(first + "/" + second, Romanisation) == [first, second];
    assert Alternates(c, [first, second]) == [Alternate(c, second)];
  }

  /**
   * Two characters in romanisation mode, each with two readings: the report
   * is both primaries, the heading, and the two tagged alternates. Spaces
   * around "/" in the raw text stay in the tokens, so `"nǐ / ní"` gives the
   * primary `"nǐ "` and the alternate `"你: ní "`.
   */
  lemma TwoCharacterReport(c1: char, first1: string, second1: string, c2: char, first2: string, second2: string)
    requires forall k :: 0 <= k < |first1| ==> first1[k] != '/'
    requires forall k :: 0 <= k < |second1| ==> second1[k] != '/'
    requires forall k :: 0 <= k < |first2| ==> first2[k] != '/'
    requires forall k :: 0 <= k < |second2| ==> second2[k] != '/'
    ensures Render([(c1, first1 + "/" + second1), (c2, first2 + "/" + second2)], Romanisation)
      == (first1 + " " + first2) + " " + AlternativesHeading + (Alternate(c1, second1) + " " + Alternate(c2, second2))
  {
    var results := [(c1, first1 + "/" + second1), (c2, first2 + "/" + second2)];
    TwoReadings(c1, first1, second1);
    TwoReadings(c2, first2, second2);
    var primaries := Primaries(results, Romanisation);
    var groups := AltGroups(results, Romanisation);
    assert primaries == [first1, first2];
    assert groups == [Alternate(c1, second1), Alternate(c2, second2)];
    assert Join(" ", primaries) == first1 + " " + first2;
    assert Join(" ", groups) == Alternate(c1, second1) + " " + Alternate(c2, second2);
  }
}
