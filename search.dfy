/** The web-retrieval helper `search_internet`: one search call whose response
    is flattened into a text block for the prompt. The search service itself
    is an input: either the response dictionary it returned or the text of the
    exception it raised. */
module Search {
  import opened Wrappers

  /** One entry of the response's 'results' list. A field is None when its key
      is absent from the entry; a present value is given as the text the
      f-string renders it as. */
  datatype Hit = Hit(content: Option<string>, url: Option<string>)

  /** The response dictionary. `answer` is Some exactly when the 'answer' key
      is present, whatever its value (an empty answer is still Some("")).
      `results` is None when the 'results' key is absent. */
  datatype Response = Response(answer: Option<string>, results: Option<seq<Hit>>)

  /** What the search call produced for the query it was given: a response,
      or the text of the exception it raised. */
  datatype SearchOutcome = Responded(response: Response) | Failed(error: string)

  /** The arguments of the search call: the query and the fixed options. */
  datatype SearchCall = SearchCall(query: string, searchDepth: string, maxResults: nat, includeAnswer: bool)

  /** The call the helper makes for a query: the query verbatim, advanced
      depth, at most five results, with the synthesized answer. */
  function SearchCallFor(query: string): SearchCall
  {
    SearchCall(query, "advanced", 5, true)
  }

  const SummaryPrefix: string := "Tavily Summary: "
  const ErrorPrefix: string := "Eroare search: "

  function SummaryLine(answer: string): string
  {
    SummaryPrefix + answer + "\n"
  }

  function HitLine(content: string, url: string): string
  {
    "- " + content + " (" + url + ")\n"
  }

  /** The text of the KeyError raised by `res[key]` on an entry without `key`. */
  function KeyErrorText(key: string): string
  {
    "'" + key + "'"
  }

  /** `response.get('results', [])` */
  function ResultsOf(r: Response): seq<Hit>
  {
    if r.results.Some? then r.results.value else []
  }

  predicate Complete(h: Hit)
  {
    h.content.Some? && h.url.Some?
  }

  /** The key whose lookup raises first on an incomplete entry: 'content' is
      read before 'url'. */
  function MissingKey(h: Hit): string
  {
    if h.content.None? then "content" else "url"
  }

  /** The lines appended for `hits`, taken one entry at a time from the front,
      or the first missing key. Defined from the last entry backwards, the way
      the loop extends its accumulator. */
  function RenderHits(hits: seq<Hit>): Result<string, string>
  {
    if hits == [] then Ok("")
    else
      var h := hits[|hits| - 1];
      match RenderHits(hits[..|hits| - 1])
      case Err(key) => Err(key)
      case Ok(text) =>
        if Complete(h) then Ok(text + HitLine(h.content.value, h.url.value))
        else Err(MissingKey(h))
  }

  /** The context block `search_internet` returns for a search outcome. */
  function SearchContext(outcome: SearchOutcome): string
  {
    match outcome
    case Failed(e) => ErrorPrefix + e
    case Responded(r) =>
      var summary := if r.answer.Some? then SummaryLine(r.answer.value) else "";
      match RenderHits(ResultsOf(r))
      case Ok(lines) => summary + lines
      case Err(key) => ErrorPrefix + KeyErrorText(key)
  }

  /** The search helper as the source runs it: start from the empty context,
      add the summary line when the answer key is present, then add one line
      per result, and give the error text instead if any lookup raises. */
  method SearchInternet(query: string, outcome: SearchOutcome) returns (call: SearchCall, context: string)
    ensures call.query == query
    ensures call.searchDepth == "advanced" && call.maxResults == 5 && call.includeAnswer
    ensures context == SearchContext(outcome)
  {
    call := SearchCall(query, "advanced", 5, true);
    if outcome.Failed? {
      return call, ErrorPrefix + outcome.error;
    }
    var response := outcome.response;
    context := "";
    if response.answer.Some? {
      context := context + SummaryLine(response.answer.value);
    }
    ghost var summary := context;
    var hits := ResultsOf(response);
    for i := 0 to |hits|
      invariant RenderHits(hits[..i]).Ok?
      invariant context == summary + RenderHits(hits[..i]).value
    {
      var hit := hits[i];
      RenderHitsExtend(hits, i);
      if hit.content.None? {
        ErrorPersists(hits, i + 1);
        return call, ErrorPrefix + KeyErrorText("content");
      }
      if hit.url.None? {
        ErrorPersists(hits, i + 1);
        return call, ErrorPrefix + KeyErrorText("url");
      }
      context := context + HitLine(hit.content.value, hit.url.value);
    }
    assert hits[..|hits|] == hits;
  }

  /** One more entry: its line is added, or its missing key is the error. */
  lemma RenderHitsExtend(hits: seq<Hit>, i: nat)
    requires i < |hits|
    requires RenderHits(hits[..i]).Ok?
    ensures RenderHits(hits[..i + 1]) ==
      if Complete(hits[i]) then Ok(RenderHits(hits[..i]).value + HitLine(hits[i].content.value, hits[i].url.value))
      else Err(MissingKey(hits[i]))
  {
    assert hits[..i + 1][..i] == hits[..i];
  }

  /** Once a prefix of the results raises, so does the whole list, with the
      same key. */
  lemma {:induction false} ErrorPersists(hits: seq<Hit>, i: nat)
    requires i <= |hits|
    requires RenderHits(hits[..i]).Err?
    ensures RenderHits(hits) == RenderHits(hits[..i])
    decreases |hits| - i
  {
    if i < |hits| {
      var longer := hits[..i + 1];
      assert longer[..i] == hits[..i];
      assert RenderHits(longer) == RenderHits(hits[..i]);
      ErrorPersists(hits, i + 1);
    } else {
      assert hits[..i] == hits;
    }
  }

  // ---- Reference definitions, read from the front ----

  /** The number of leading entries that carry both keys. */
  function CompletePrefix(hits: seq<Hit>): (n: nat)
    ensures n <= |hits|
  {
    if hits == [] || !Complete(hits[0]) then 0 else 1 + CompletePrefix(hits[1..])
  }

  /** The lines for entries that all carry both keys: one line per entry, in
      list order. */
  function Lines(hits: seq<Hit>): string
    requires forall i | 0 <= i < |hits| :: Complete(hits[i])
  {
    if hits == [] then ""
    else
      assert Complete(hits[0]);
      HitLine(hits[0].content.value, hits[0].url.value) + Lines(hits[1..])
  }

  lemma {:induction false} LinesSnoc(hits: seq<Hit>, h: Hit)
    requires forall i | 0 <= i < |hits| :: Complete(hits[i])
    requires Complete(h)
    ensures forall i | 0 <= i < |hits + [h]| :: Complete((hits + [h])[i])
    ensures Lines(hits + [h]) == Lines(hits) + HitLine(h.content.value, h.url.value)
  {
    assert forall i | 0 <= i < |hits + [h]| :: Complete((hits + [h])[i]) by {
      forall i | 0 <= i < |hits + [h]| ensures Complete((hits + [h])[i]) {
        if i < |hits| { assert (hits + [h])[i] == hits[i]; }
      }
    }
    if hits != [] {
      assert (hits + [h])[1..] == hits[1..] + [h];
      LinesSnoc(hits[1..], h);
    }
  }

  lemma {:induction false} CompletePrefixSnoc(hits: seq<Hit>, h: Hit)
    ensures CompletePrefix(hits + [h]) ==
      if CompletePrefix(hits) < |hits| then CompletePrefix(hits)
      else if Complete(h) then |hits| + 1 else |hits|
  {
    if hits != [] {
      assert (hits + [h])[1..] == hits[1..] + [h];
      CompletePrefixSnoc(hits[1..], h);
    }
  }

  lemma {:induction false} CompletePrefixAll(hits: seq<Hit>)
    ensures CompletePrefix(hits) == |hits| <==> forall i | 0 <= i < |hits| :: Complete(hits[i])
  {
    if hits != [] {
      CompletePrefixAll(hits[1..]);
      if CompletePrefix(hits) == |hits| {
        forall i | 0 <= i < |hits| ensures Complete(hits[i]) {
          if i > 0 { assert hits[i] == hits[1..][i - 1]; }
        }
      }
      if forall i | 0 <= i < |hits| :: Complete(hits[i]) {
        assert forall i | 0 <= i < |hits| - 1 :: hits[1..][i] == hits[i + 1];
      }
    }
  }

  lemma {:induction false} CompletePrefixStops(hits: seq<Hit>)
    requires CompletePrefix(hits) < |hits|
    ensures !Complete(hits[CompletePrefix(hits)])
    ensures forall i | 0 <= i < CompletePrefix(hits) :: Complete(hits[i])
  {
    if Complete(hits[0]) {
      CompletePrefixStops(hits[1..]);
      forall i | 0 <= i < CompletePrefix(hits) ensures Complete(hits[i]) {
        if i > 0 { assert hits[i] == hits[1..][i - 1]; }
      }
    }
  }

  /** The backward rendering agrees with the front-to-back reading: every
      entry complete gives all their lines in order; otherwise the key that
      raises is the missing key of the first incomplete entry. */
  lemma {:induction false} RenderHitsMeaning(hits: seq<Hit>)
    ensures (forall i | 0 <= i < |hits| :: Complete(hits[i])) ==> RenderHits(hits) == Ok(Lines(hits))
    ensures CompletePrefix(hits) < |hits| ==> RenderHits(hits) == Err(MissingKey(hits[CompletePrefix(hits)]))
  {
    CompletePrefixAll(hits);
    if hits != [] {
      var front, h := hits[..|hits| - 1], hits[|hits| - 1];
      assert hits == front + [h];
      RenderHitsMeaning(front);
      CompletePrefixAll(front);
      CompletePrefixSnoc(front, h);
      if forall i | 0 <= i < |hits| :: Complete(hits[i]) {
        assert forall i | 0 <= i < |front| :: front[i] == hits[i];
        LinesSnoc(front, h);
      }
      if CompletePrefix(front) < |front| {
        assert hits[CompletePrefix(hits)] == front[CompletePrefix(front)];
      }
    }
  }

  /** Layout of the context block (the source's promise, read front to back):
      a failed search gives its error text; otherwise, when every entry has
      both keys, the summary line comes first exactly when the 'answer' key is
      present, followed by one line per entry in order; an entry without a key
      gives the KeyError text of the first such entry instead. */
  lemma ContextLayout(outcome: SearchOutcome)
    ensures outcome.Failed? ==> SearchContext(outcome) == ErrorPrefix + outcome.error
    ensures outcome.Responded? && CompletePrefix(ResultsOf(outcome.response)) == |ResultsOf(outcome.response)| ==>
      var r := outcome.response;
      (forall i | 0 <= i < |ResultsOf(r)| :: Complete(ResultsOf(r)[i])) &&
      SearchContext(outcome) ==
        (if r.answer.Some? then SummaryLine(r.answer.value) else "") + Lines(ResultsOf(r))
    ensures outcome.Responded? && CompletePrefix(ResultsOf(outcome.response)) < |ResultsOf(outcome.response)| ==>
      var hits := ResultsOf(outcome.response);
      var k := CompletePrefix(hits);
      && (forall i | 0 <= i < k :: Complete(hits[i]))
      && !Complete(hits[k])
      && SearchContext(outcome) == ErrorPrefix + KeyErrorText(MissingKey(hits[k]))
  {
    if outcome.Responded? {
      var hits := ResultsOf(outcome.response);
      RenderHitsMeaning(hits);
      CompletePrefixAll(hits);
      if CompletePrefix(hits) < |hits| {
        CompletePrefixStops(hits);
      }
    }
  }

  /** Entry k's line sits between the lines of the entries before it and
      those after it: the block keeps the result order. */
  lemma {:induction false} LinesInOrder(hits: seq<Hit>, k: nat)
    requires forall i | 0 <= i < |hits| :: Complete(hits[i])
    requires k < |hits|
    ensures Lines(hits) ==
      Lines(hits[..k]) + HitLine(hits[k].content.value, hits[k].url.value) + Lines(hits[k + 1..])
  {
    if k > 0 {
      assert hits[1..][..k - 1] == hits[1..k];
      assert hits[1..][k - 1] == hits[k];
      assert hits[1..][k..] == hits[k + 1..];
      LinesInOrder(hits[1..], k - 1);
      assert hits[..k] == [hits[0]] + hits[1..k];
      assert hits[..k][1..] == hits[1..k];
    }
  }

  /** The helper never raises, and its result starts with the error prefix
      exactly when the search failed or a result entry lacked a key. */
  lemma ErrorTextIffFailure(outcome: SearchOutcome)
    ensures ErrorPrefix <= SearchContext(outcome) <==>
      outcome.Failed? || CompletePrefix(ResultsOf(outcome.response)) < |ResultsOf(outcome.response)|
  {
    ContextLayout(outcome);
    if outcome.Responded? && CompletePrefix(ResultsOf(outcome.response)) == |ResultsOf(outcome.response)| {
      var r := outcome.response;
      var c := SearchContext(outcome);
      var hits := ResultsOf(r);
      if r.answer.Some? {
        assert c[0] == 'T';
      } else if hits != [] {
        assert c[0] == '-';
      } else {
        assert c == "";
      }
    }
  }
}
