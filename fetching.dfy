/**
 * Per-character retrieval. The HTTP request and the markup extraction are
 * foreign; what the model keeps is how their outcomes are turned into a
 * `(character, text)` pair, the sentinel on every failure, and which
 * characters are fetched, in which order.
 */
module Fetching {
  import opened Wrappers
  import opened Seqs
  import opened Validation
  import opened Dialects

  /** The text returned for a character whose pronunciation could not be found. */
  const NoInfo: string := " (No Info) "

  datatype Mode = Romanisation | Ipa

  /**
   * What fetching one character's page gives: either an exception was raised
   * (network failure, timeout), or a response with its status and, when the
   * body is JSON holding `parse.text`, that page text.
   */
  datatype Reply = Raised | Response(status: int, page: Option<string>)

  /**
   * The outside world: the reply to each request, and the markup extractor,
   * which for a page, a title token and a mode gives the text of the
   * matching node, or `None` when a node along the way is missing. Every
   * character occurrence is its own request, so replies are indexed by the
   * task's position as well as by its character: two requests for the same
   * character can fare differently.
   */
  datatype Network = Network(get: (nat, char) -> Reply, extract: (string, string, Mode) -> Option<string>)

  /** The same network, seen by the tasks after the first `k`. */
  function Later(net: Network, k: nat): (r: Network)
    ensures r.extract == net.extract
    ensures forall task: nat, c :: r.get(task, c) == net.get(task + k, c)
  {
    Network((task: nat, c: char) => net.get(task + k, c), net.extract)
  }

  /** A successful reply to request `task` for `c` whose page the extractor found `text` in. */
  predicate Found(task: nat, c: char, dialect: string, mode: Mode, net: Network, text: string)
  {
    && net.get(task, c).Response?
    && net.get(task, c).status == 200
    && net.get(task, c).page.Some?
    && net.extract(net.get(task, c).page.value, TitleToken(dialect), mode) == Some(text)
  }

  /**
   * `wiktionary_async` as request number `task`: never fails; a found text
   * is returned as it is, and every failure becomes the sentinel.
   */
  function FetchPronunciation(task: nat, c: char, dialect: string, mode: Mode, net: Network): (r: (char, string))
    ensures r.0 == c
    ensures forall text :: Found(task, c, dialect, mode, net, text) ==> r.1 == text
    ensures r.1 != NoInfo ==> Found(task, c, dialect, mode, net, r.1)
    ensures (forall text :: !Found(task, c, dialect, mode, net, text)) ==> r.1 == NoInfo
  {
    match net.get(task, c)
    case Raised => (c, NoInfo)
    case Response(status, page) =>
      if status != 200 then (c, NoInfo)
      else match page
        case None => (c, NoInfo)
        case Some(html) =>
          match net.extract(html, TitleToken(dialect), mode)
          case None => (c, NoInfo)
          case Some(text) =>
            assert Found(task, c, dialect, mode, net, text);
            (c, text)
  }

  /** The characters that get a task: those whose category is not punctuation. */
  function Fetched(u: Unicode): (keep: char -> bool)
    ensures forall c :: keep(c) == !u.isPunctuation(c)
  {
    c => !u.isPunctuation(c)
  }

  /** Request `task` of the later tasks is request `task + k` of the whole network. */
  lemma FetchLater(task: nat, c: char, dialect: string, mode: Mode, net: Network, k: nat)
    ensures FetchPronunciation(task, c, dialect, mode, Later(net, k)) == FetchPronunciation(task + k, c, dialect, mode, net)
  {
    assert Later(net, k).get(task, c) == net.get(task + k, c);
  }

  /** One request per task, in order: the i-th task is request number i. */
  function Requests(tasks: string, dialect: string, mode: Mode, net: Network): (r: seq<(char, string)>)
    ensures |r| == |tasks|
  {
    seq(|tasks|, i requires 0 <= i < |tasks| => FetchPronunciation(i, tasks[i], dialect, mode, net))
  }

  /** The requests of the second part of the tasks are those after the first part's. */
  lemma RequestsAppend(t1: string, t2: string, dialect: string, mode: Mode, net: Network)
    ensures Requests(t1 + t2, dialect, mode, net) ==
      Requests(t1, dialect, mode, net) + Requests(t2, dialect, mode, Later(net, |t1|))
  {
    var whole := Requests(t1 + t2, dialect, mode, net);
    var parts := Requests(t1, dialect, mode, net) + Requests(t2, dialect, mode, Later(net, |t1|));
    forall i | 0 <= i < |whole|
      ensures whole[i] == parts[i]
    {
      if i >= |t1| {
        FetchLater(i - |t1|, t2[i - |t1|], dialect, mode, net, |t1|);
      }
    }
  }

  /**
   * `fetch_all`: one task per non-punctuation character, results in input
   * order, the i-th result being the outcome of the i-th request.
   */
  function FetchAll(characters: string, dialect: string, mode: Mode, u: Unicode, net: Network): (r: seq<(char, string)>)
    ensures |r| == |Filter(characters, Fetched(u))|
    ensures forall i :: 0 <= i < |r| ==> r[i] == FetchPronunciation(i, Filter(characters, Fetched(u))[i], dialect, mode, net)
    ensures forall i :: 0 <= i < |r| ==> r[i].0 in characters && !u.isPunctuation(r[i].0)
  {
    FilterMembers(characters, Fetched(u));
    Requests(Filter(characters, Fetched(u)), dialect, mode, net)
  }

  /**
   * Results follow input order: fetching a concatenation gives the results
   * of the first part, then those of the second part, whose requests come
   * after the first part's.
   */
  lemma FetchAllAppend(a: string, b: string, dialect: string, mode: Mode, u: Unicode, net: Network)
    ensures FetchAll(a + b, dialect, mode, u, net) ==
      FetchAll(a, dialect, mode, u, net) + FetchAll(b, dialect, mode, u, Later(net, |Filter(a, Fetched(u))|))
  {
    FilterAppend(a, b, Fetched(u));
    RequestsAppend(Filter(a, Fetched(u)), Filter(b, Fetched(u)), dialect, mode, net);
  }

  /** Each character yields exactly one result, and punctuation yields none. */
  lemma FetchAllSingle(c: char, dialect: string, mode: Mode, u: Unicode, net: Network)
    ensures FetchAll([c], dialect, mode, u, net) ==
      if u.isPunctuation(c) then [] else [FetchPronunciation(0, c, dialect, mode, net)]
  {
    assert [c][1..] == [];
  }

  /** A repeated character is fetched twice, by two separate requests. */
  lemma RepeatFetchedTwice(c: char, dialect: string, mode: Mode, u: Unicode, net: Network)
    requires !u.isPunctuation(c)
    ensures FetchAll([c, c], dialect, mode, u, net) ==
      [FetchPronunciation(0, c, dialect, mode, net), FetchPronunciation(1, c, dialect, mode, net)]
  {
    assert [c, c] == [c] + [c];
    FetchAllAppend([c], [c], dialect, mode, u, net);
    FetchAllSingle(c, dialect, mode, u, net);
    FetchAllSingle(c, dialect, mode, u, Later(net, 1));
  }

  /**
   * Punctuation is never fetched: two networks that answer alike for the
   * input's non-punctuation characters give the same results.
   */
  lemma PunctuationNotFetched(characters: string, dialect: string, mode: Mode, u: Unicode, n1: Network, n2: Network)
    requires forall i, task: nat :: 0 <= i < |characters| && !u.isPunctuation(characters[i]) ==>
      n1.get(task, characters[i]) == n2.get(task, characters[i])
    requires forall page, token, m :: n1.extract(page, token, m) == n2.extract(page, token, m)
    ensures FetchAll(characters, dialect, mode, u, n1) == FetchAll(characters, dialect, mode, u, n2)
  {
    var r1 := FetchAll(characters, dialect, mode, u, n1);
    var r2 := FetchAll(characters, dialect, mode, u, n2);
    forall i | 0 <= i < |r1|
      ensures r1[i] == r2[i]
    {
      var c := r1[i].0;
      var j :| 0 <= j < |characters| && characters[j] == c;
      assert n1.get(i, c) == n2.get(i, c);
    }
  }
}
