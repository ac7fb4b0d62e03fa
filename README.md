# Wiktionary pronunciation lookup — a Dafny model

The system is a small web page. A user submits three fields:
- a Chinese dialect name;
- a mode, either "romanisation" or "ipa";
- a string of Chinese characters.

The page answers with one line of pronunciations, looked up on Wiktionary. Around the web and network code sits a sequential pipeline, and that pipeline is what this project models and proves things about:

- **Dialect resolution** (`Dialects`). The name is title-cased and matched exactly against a fixed alias table. The result is one of twelve labels or a `ValueError`. The label becomes the title token `w:<label>` that is searched for in the page markup.
- **Character validation** (`Validation`). All whitespace is deleted. Every remaining character must be a CJK unified ideograph (U+4E00 to U+9FFF) or punctuation. The string is then converted from simplified to traditional script.
- **Fetching** (`Fetching`). There is one lookup per non-punctuation character, and the results come back in input order. Every failure becomes the sentinel text `" (No Info) "`. Failures include a non-200 status, a body without page text, a missing markup node and any exception.
- **Aggregation** (`Aggregation`). The loop of the request handler splits each raw text into tokens:
  - on `"/"` for romanisation;
  - on `", "` for IPA, with one delimiter character cut off each end of every token.

  The first token is the primary. The others become alternates `"<char>:<token> "`. The report is the primaries joined by spaces, then `"|| Alternative Pronounciations: "` and the alternate groups joined by spaces.
- **The request handler** (`Pipeline`). The dialect, the mode and the characters are checked, in that order. A failed check gives `"Error: "` followed by the exception's message. Otherwise the characters are fetched and aggregated.

Python's own string operations are modelled in `PyStr`:
- `isspace`, which is also the set `\s` matches;
- `strip`, `lower` and `title`;
- `split` with a separator, and `join`;
- the slice `p[1:-1]`.

Order-preserving filtering, a comprehension with an `if`, is in `Seqs`.

Three kinds of foreign behaviour are parameters of the model, held in values of two datatypes:
- `Validation.Unicode` holds the Unicode category test ("is the category `P*`?") and the simplified-to-traditional converter.
- `Fetching.Network` holds the HTTP reply to each request and the markup extractor. A reply is indexed by the request's position among the tasks as well as by its character, so two requests for a repeated character can fare differently.

The extractor returns `None` for every path on which the original code raises. Those are an `IndexError` on a missing node, or an attribute error when `find_parent`/`find` find nothing, which the outer handler catches. The model then produces the sentinel.

A few points where the code is followed as written:
- `"Guangdong"` resolves to itself, not to `"Cantonese"`. Its title token is therefore `w:Guangdong`, which is why there are twelve labels and not eleven.
- Punctuation is dropped before fetching. It does not appear in the report at all.
- The mode must be spelt `romanisation`.
- A bare `ValueError` has the empty string as its message. So an unknown dialect and a rejected character both render exactly `"Error: "`, and only the mode check says `"Error: Invalid mode"`.
- Splitting on `"/"` keeps the spaces around the separator. A raw text `"nǐ / ní"` gives the primary `"nǐ "` and the alternate `"你: ní "` (`Aggregation.TwoCharacterReport`).

## Model

| member | source | states |
|---|---|---|
| Seqs.FilterMembers | wiktionarywebsite.py:70-73 | an element survives filtering exactly when it occurs in the input and the predicate keeps it |
| Seqs.FilterAppend | wiktionarywebsite.py:70-73 | filtering a concatenation is the concatenation of the filtered parts, so kept elements keep their relative order |
| Seqs.FilterNone | wiktionarywebsite.py:39 | a sequence none of whose elements is kept filters to the empty sequence |
| PyStr.RemoveWhitespace | wiktionarywebsite.py:39 | the string with whitespace deleted contains no whitespace character |
| PyStr.StripStart | wiktionarywebsite.py:86 | the result is a suffix of the input, everything dropped is whitespace, and the result does not start with whitespace |
| PyStr.StripEnd | wiktionarywebsite.py:86 | the result is a prefix of the input, everything dropped is whitespace, and the result does not end with whitespace |
| PyStr.Strip | wiktionarywebsite.py:86 | the stripped string neither starts nor ends with whitespace |
| PyStr.StripStartInvisible | wiktionarywebsite.py:89 | removing leading whitespace does not change the string once all whitespace is deleted |
| PyStr.StripEndInvisible | wiktionarywebsite.py:89 | removing trailing whitespace does not change the string once all whitespace is deleted |
| PyStr.RemoveWhitespaceAfterStrip | wiktionarywebsite.py:89 | stripping the characters before validation is invisible to whitespace deletion |
| PyStr.LowerChar | wiktionarywebsite.py:83 | a lower-cased character is never upper case and is cased exactly when the input is |
| PyStr.UpperChar | wiktionarywebsite.py:11 | an upper-cased character is never lower case and is cased exactly when the input is |
| PyStr.Title | wiktionarywebsite.py:11 | title-casing keeps the length of the name |
| PyStr.LowerIdempotent | wiktionarywebsite.py:83 | lower-casing an already lower-cased string changes nothing |
| PyStr.LowerOfTitle | wiktionarywebsite.py:11 | title-casing changes nothing that lower-casing keeps: the lower-cased form of the title-cased name is the lower-cased name |
| PyStr.TitleIdempotent | wiktionarywebsite.py:11 | title-casing an already title-cased string changes nothing |
| PyStr.TitleIgnoresCase | wiktionarywebsite.py:11 | two strings with the same lower-case form have the same title-cased form |
| PyStr.SameLowerChar | wiktionarywebsite.py:11 | characters with the same lower-case form have the same upper-case form and the same casedness |
| PyStr.OccursShift | wiktionarywebsite.py:97 | an occurrence of the separator at a position past the first moves one position left when the first character is dropped |
| PyStr.Find | wiktionarywebsite.py:97 | a found index is an occurrence of the separator |
| PyStr.FindFirst | wiktionarywebsite.py:97 | the found index is the first occurrence, and nothing is found exactly when the separator does not occur |
| PyStr.Split | wiktionarywebsite.py:97 | a split always gives at least one piece |
| PyStr.SplitSingleIff | wiktionarywebsite.py:97 | a split gives a single piece exactly when the separator does not occur |
| PyStr.FreeOfChar | wiktionarywebsite.py:97 | a string without a character has no occurrence of that character as a one-character separator |
| PyStr.SplitCharFirst | wiktionarywebsite.py:97 | splitting on a one-character separator cuts at its first occurrence |
| PyStr.JoinSplit | wiktionarywebsite.py:97 | joining the pieces of a split with the same separator rebuilds the original string |
| PyStr.SplitPiecesFree | wiktionarywebsite.py:97-99 | no piece of a split contains the separator |
| PyStr.SplitFree | wiktionarywebsite.py:97-99 | a string without the separator splits into itself alone |
| PyStr.JoinSnoc | wiktionarywebsite.py:104-105 | appending one part to a non-empty list of parts adds exactly one separator and that part to the joined string |
| PyStr.JoinStartsWithFirst | wiktionarywebsite.py:102 | a joined string starts with its first part, followed by the separator when there are two parts or more |
| PyStr.InnerRewrap | wiktionarywebsite.py:100 | `p[1:-1]` loses exactly the first and the last character: putting them back around it rebuilds `p` |
| Dialects.Canonical | wiktionarywebsite.py:12-36 | the match succeeds exactly on the thirty-two aliases, listed independently as a set, and falls through to the raised `ValueError` otherwise; every value it returns is one of the twelve labels |
| Dialects.DialectConverter | wiktionarywebsite.py:10-37 | a name resolves exactly when its title-cased form is one of the aliases, and otherwise raises; every resolved value is one of the twelve labels |
| Dialects.TitleTokenInjective | wiktionarywebsite.py:47 | distinct labels give distinct title tokens |
| Dialects.ResolutionDependsOnlyOnTitle | wiktionarywebsite.py:11 | resolution depends on the name only through its title-cased form |
| Dialects.ResolutionIgnoresCase | wiktionarywebsite.py:11-12 | names that differ only in letter case resolve alike |
| Dialects.MandarinAliases | wiktionarywebsite.py:13-14 | "Mandarin" resolves to "Mandarin Chinese" |
| Dialects.CantoneseAliases | wiktionarywebsite.py:15-16 | "Cantonese" and "Guangdong" are returned unchanged |
| Dialects.GanAliases | wiktionarywebsite.py:17-18 | "Gan" and "Jiangxi" resolve to "Gan Chinese" |
| Dialects.HakkaAliases | wiktionarywebsite.py:19-20 | "Hakka", "Khek" and "Kejia" resolve to "Hakka Chinese" |
| Dialects.JinAliases | wiktionarywebsite.py:21-22 | "Jin" resolves to "Jin Chinese" |
| Dialects.NorthernMinAliases | wiktionarywebsite.py:23-24 | "Northern Min", "Kienow", "Kienning" and "Minbei" resolve to "Northern Min" |
| Dialects.EasternMinAliases | wiktionarywebsite.py:25-26 | the eight Eastern Min aliases resolve to "Eastern Min" |
| Dialects.PuxianMinAliases | wiktionarywebsite.py:27-28 | "Hinghwa", "Putian" and "Henghwa" resolve to "Puxian Min" |
| Dialects.SouthernMinAliases | wiktionarywebsite.py:29-30 | "Hokkien", "Taiwanese", "Minnan" and "Amoy" resolve to "Southern Min" |
| Dialects.WuAliases | wiktionarywebsite.py:31-32 | "Wu" and "Shanghainese" resolve to "Wu Chinese" |
| Dialects.XiangAliases | wiktionarywebsite.py:33-34 | "Xiang" and "Hunan" resolve to "Xiang Chinese" |
| Dialects.LowerCaseSpelling | wiktionarywebsite.py:10-30 | the all-lower-case spelling "hokkien" resolves to "Southern Min" |
| Dialects.RunTogetherSpelling | wiktionarywebsite.py:23-36 | "northernmin", with the words run together, is rejected |
| Validation.Validate | wiktionarywebsite.py:38-44 | validation succeeds if and only if every non-whitespace character is an ideograph in U+4E00..U+9FFF or punctuation, and then returns the traditional-script conversion of the input with all whitespace deleted |
| Validation.ValidateAfterStrip | wiktionarywebsite.py:89 | stripping the characters before validating them changes neither the verdict nor the value |
| Validation.OneBadCharacterRejects | wiktionarywebsite.py:40-42 | one character that is neither whitespace, an ideograph nor punctuation rejects the whole string, wherever it stands |
| Fetching.FetchPronunciation | wiktionarywebsite.py:45-66 | the pair carries the character it was launched for; a 200 reply with page text in which the extractor finds a text yields exactly that text; any other outcome (an exception, another status, no page text, a missing node) yields the sentinel |
| Fetching.FetchAll | wiktionarywebsite.py:68-74 | one result per non-punctuation input character, in input order; the i-th result is the outcome of the i-th request, for the i-th such character; no result is for a punctuation character |
| Fetching.FetchAllAppend | wiktionarywebsite.py:70-74 | the results for a concatenated input are the results for the first part followed by those for the second part, whose requests come after the first part's |
| Fetching.RequestsAppend | wiktionarywebsite.py:70-74 | running the tasks of two lists one after the other gives the first list's results, then the second's, numbered on from the first |
| Fetching.FetchAllSingle | wiktionarywebsite.py:70-74 | a single character yields exactly one result, or none when it is punctuation |
| Fetching.RepeatFetchedTwice | wiktionarywebsite.py:70-74 | a character that occurs twice is fetched by two separate requests, each with its own outcome |
| Fetching.PunctuationNotFetched | wiktionarywebsite.py:72 | how the network answers requests for punctuation characters does not affect the results, because they are never fetched |
| Aggregation.Tokens | wiktionarywebsite.py:96-100 | every raw text gives at least one token, so a primary always exists |
| Aggregation.AlternateInjective | wiktionarywebsite.py:101 | the character and the token can be read back from an alternate `c:tok ` |
| Aggregation.RomanisationPrimary | wiktionarywebsite.py:97-103 | the romanisation primary is the raw text up to its first "/": a prefix without "/" that is the whole text or is followed by "/" |
| Aggregation.AltGroupEmptyIff | wiktionarywebsite.py:101-102 | a result's alternate group is empty exactly when it has a single token |
| Aggregation.RomanisationAlternatesIff | wiktionarywebsite.py:97-102 | a romanisation has alternates exactly when its raw text contains "/" |
| Aggregation.IpaTokensRejoin | wiktionarywebsite.py:99-100 | when every piece of an IPA text has its two delimiters, putting them back around the tokens and joining with ", " rebuilds the raw text, with one token per piece |
| Aggregation.Primaries | wiktionarywebsite.py:103 | there is exactly one primary per result |
| Aggregation.AltGroups | wiktionarywebsite.py:102 | there is exactly one alternate group per result |
| Aggregation.Aggregate | wiktionarywebsite.py:90-105 | the appending loop produces the rendered report: the primaries, then the heading followed by the alternate groups, all joined by single spaces |
| Aggregation.Render | wiktionarywebsite.py:104-105 | joining `output` with the heading appended gives the space-joined primaries followed by a space (omitted when there are none), then the heading, then the space-joined alternate groups |
| Aggregation.RomanisationTokensRejoin | wiktionarywebsite.py:97 | romanisation tokens rejoined with "/" rebuild the raw text, and no token contains "/" |
| Aggregation.IpaSingleToken | wiktionarywebsite.py:99-100 | an IPA fragment without ", " gives the one token with its two delimiters removed |
| Aggregation.UnsplitResult | wiktionarywebsite.py:97-103 | romanisation text without "/" is its own primary and has no alternates |
| Aggregation.NoInfoFree | wiktionarywebsite.py:52 | the sentinel contains neither "/" nor ", " |
| Aggregation.SentinelResult | wiktionarywebsite.py:96-103 | the sentinel is its own primary in romanisation mode and "(No Info)" in IPA mode, with no alternates in either |
| Aggregation.TwoReadings | wiktionarywebsite.py:97-103 | a romanisation with two readings has the first as primary and the second as its single alternate |
| Aggregation.TwoCharacterReport | wiktionarywebsite.py:95-105 | two characters with two readings each render as both primaries, the heading, and the two tagged alternates, spacing included |
| Pipeline.ParseMode | wiktionarywebsite.py:83-88 | the mode is accepted exactly when its lower-cased form is "romanisation" or "ipa", and is romanisation exactly for the first |
| Pipeline.Prepare | wiktionarywebsite.py:85-89 | the checks fail only with the empty message of a bare `ValueError` or with "Invalid mode"; when they pass, the dialect is one of the twelve labels and the characters are the traditional-script conversion of the input with all whitespace deleted |
| Pipeline.Respond | wiktionarywebsite.py:85-107 | a rejected form is answered with a string that starts with "Error: " |
| Pipeline.Index | wiktionarywebsite.py:82-107 | the handler's answer for a submitted form is the checked, fetched and aggregated report, or the error string |
| Pipeline.DialectCheckedFirst | wiktionarywebsite.py:85-107 | an unknown dialect gives "Error: " whatever the mode and the characters are |
| Pipeline.ModeCheckedSecond | wiktionarywebsite.py:85-107 | with a known dialect, a mode outside the two accepted spellings gives "Error: Invalid mode" whatever the characters are |
| Pipeline.CharactersCheckedThird | wiktionarywebsite.py:85-107 | with a known dialect and an accepted mode, one disallowed character gives "Error: " |
| Pipeline.AcceptedIffChecksPass | wiktionarywebsite.py:85-89 | a form is accepted exactly when the dialect is known, the mode is accepted and the characters validate |
| Pipeline.RejectionFetchesNothing | wiktionarywebsite.py:85-107 | a rejected form gets a response that starts with "Error: " and is the same for every network, so nothing is fetched before the checks pass |
| Pipeline.AcceptedReport | wiktionarywebsite.py:86-105 | an accepted form uses the traditional-script characters without whitespace and one of the twelve labels, has one primary per fetched character, and is answered with the shaped report |
| Pipeline.DegradedEntry | wiktionarywebsite.py:95-103 | a character whose fetch produced the sentinel keeps its slot, with the sentinel (romanisation) or "(No Info)" (IPA) as primary and an empty alternate group |

## Left out

- Flask routing, reading the form and HTML templating. The model takes the three form strings as inputs; the GET request that renders an empty result is not modelled.
- The aiohttp session, the asyncio event loop and `gather`. Results are the in-order sequential map that `gather` guarantees. Concurrency and timing are not modelled.
- The URL construction and the JSON path `parse.text`. These are part of the reply parameter: `Reply.Response` carries the page text, or `None` when the body has none.
- The BeautifulSoup `find_all`/`find_parent`/`find` chains. They are the `extract` parameter of `Network`, which takes the mode. Which title occurrence is used (the first for romanisation, the second for IPA) is therefore not modelled.
- `unicodedata.category` and `chinese_converter.to_traditional`. They are the parameters of `Unicode`, with no properties assumed.
- The debug print of each character, reading the port from the environment and starting the server.
- Dialects.DialectConverter: title-casing is modelled over ASCII letters, with every other character uncased. The few non-ASCII characters that Python's case mapping turns into ASCII letters are outside the model. Examples are the Kelvin sign and the long s, which would let a lookalike spelling resolve.
- PyStr.Title: the same ASCII-only case mapping as above.
- PyStr.Lower: the same ASCII-only case mapping.
- Pipeline.ParseMode: lower-cases with the ASCII-only mapping. No non-ASCII character lower-cases to a plain ASCII letter of "romanisation" or "ipa", so acceptance of the mode is the same as Python's.
