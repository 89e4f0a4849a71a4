/** RussianTranslator: the word check, the cleaning, and the orchestration
    of cache and providers behind translate_word and batch_translate. A
    provider is its name and an oracle for its HTTP replies; its translate
    method is wrapped in retry_with_backoff(max_retries=3, initial_backoff=2.0). */
module Translator {
  import opened Text
  import opened JsonValue
  import opened Wrappers
  import opened Retry
  import opened ResponseParser
  import opened Cache

  /** The character class [А-Яа-я]: U+0410 to U+044F, which leaves out ё and Ё. */
  predicate IsRussianLetter(c: char) {
    '\U{410}' <= c <= '\U{44F}'
  }

  /** is_russian_word: the pattern [А-Яа-я] is found somewhere in the word. */
  function IsRussianWord(word: string): (r: bool)
    ensures r <==> exists i :: 0 <= i < |word| && IsRussianLetter(word[i])
  {
    if word == [] then false
    else if IsRussianLetter(word[0]) then true
    else
      assert forall i :: 1 <= i < |word| ==> word[i] == word[1..][i - 1];
      IsRussianWord(word[1..])
  }

  /** clean_word: strip(), then lower(). */
  function CleanWord(word: string): (r: string)
    ensures IsLower(r) && Trimmed(r)
    ensures |r| <= |word|
  {
    var s := Strip(word);
    assert Trimmed(s) && |s| <= |word| by { StripSpec(word); }
    assert IsLower(Lower(s)) by { LowerIdempotent(s); }
    Lower(s)
  }

  /** Cleaning a cleaned word changes nothing. */
  lemma CleanWordIdempotent(word: string)
    ensures CleanWord(CleanWord(word)) == CleanWord(word)
  {
    var c := CleanWord(word);
    StripTrimmed(c);
    LowerOfLower(c);
  }

  /** Neither ё nor Ё alone makes a word Russian. */
  lemma IoIsNotRussian()
    ensures !IsRussianWord("ё") && !IsRussianWord("Ё")
    ensures IsRussianWord("Ёж")
  {
    assert "Ёж"[1] == 'ж';
  }

  /** What an HTTP request to the completion endpoint comes back with: a
      status and the message content, or a requests exception. */
  datatype HttpReply = Reply(status: int, content: string) | RequestFailed

  /** What one call of a provider's translate can raise. */
  datatype ProviderError =
    | ApiError(status: int)   // a status other than 200
    | RequestError            // requests.RequestException
    | ParseTypeError          // the TypeError raised by _parse_response

  /** A TranslationProvider: its name, and the outcome of the k-th call (from
      0) of its undecorated translate method on a word. */
  datatype Provider = Provider(name: string, call: (string, nat) -> Attempt<Dict, ProviderError>)

  /** The decorator's settings on translate. */
  const MaxRetries: int := 3
  const InitialBackoff: real := 2.0
  const BackoffFactor: real := 2.0

  /** One undecorated call of OpenRouterTranslationProvider.translate(word),
      given the reply to its HTTP request: a reply other than 200 and a
      failed request raise; a 200 reply has its content stripped and parsed. */
  function OpenRouterCall(reply: HttpReply, word: string, loads: Loads): (r: Attempt<Dict, ProviderError>)
    ensures r.Ok? ==> "original" in r.value && r.value["original"] == JStr(word)
    ensures r.Ok? <==> reply.Reply? && reply.status == 200
                       && ParseResponse(Strip(reply.content), word, loads).Parsed?
    ensures reply.RequestFailed? ==> r == Raise(RequestError)
    ensures reply.Reply? && reply.status != 200 ==> r == Raise(ApiError(reply.status))
  {
    match reply
    case RequestFailed => Raise(RequestError)
    case Reply(status, content) =>
      if status != 200 then Raise(ApiError(status))
      else match ParseResponse(Strip(content), word, loads)
        case Parsed(d) => Ok(d)
        case TypeError => Raise(ParseTypeError)
  }

  /** The OpenRouter provider, given the reply to the k-th request for a word. */
  function OpenRouter(http: (string, nat) -> HttpReply, loads: Loads): Provider {
    Provider("openrouter", (word: string, k: nat) => OpenRouterCall(http(word, k), word, loads))
  }

  /** A provider whose every result is for the word it was asked. */
  ghost predicate Faithful(p: Provider) {
    forall word, k :: p.call(word, k).Ok? ==>
      "original" in p.call(word, k).value && p.call(word, k).value["original"] == JStr(word)
  }

  /** Every result of the OpenRouter provider has "original" set to the word
      asked, whatever the replies and the decoder. */
  lemma OpenRouterFaithful(http: (string, nat) -> HttpReply, loads: Loads)
    ensures Faithful(OpenRouter(http, loads))
  {
    var p := OpenRouter(http, loads);
    forall word, k | p.call(word, k).Ok?
      ensures "original" in p.call(word, k).value && p.call(word, k).value["original"] == JStr(word)
    {
      assert p.call(word, k) == OpenRouterCall(http(word, k), word, loads);
    }
  }

  /** The numbered calls of translate(word) that the retry wrapper makes. */
  function Calls(p: Provider, word: string): nat -> Attempt<Dict, ProviderError> {
    (k: nat) => p.call(word, k)
  }

  /** A provider's decorated translate gives a truthy result. */
  predicate Produces(p: Provider, word: string) {
    var o := Retried(Calls(p, word), MaxRetries).0;
    o.Returned? && o.value != map[]
  }

  /** What each provider's decorated translate gives for a word: its
      outcome and the number of HTTP requests it made. */
  function Answers(providers: seq<Provider>, word: string): (r: seq<(Outcome<Dict, ProviderError>, nat)>)
    ensures |r| == |providers|
    ensures forall i :: 0 <= i < |providers| ==> r[i] == Retried(Calls(providers[i], word), MaxRetries)
  {
    seq(|providers|, i requires 0 <= i < |providers| => Retried(Calls(providers[i], word), MaxRetries))
  }

  /** An answer the providers loop accepts: a returned, truthy result. */
  predicate Wins(a: (Outcome<Dict, ProviderError>, nat)) {
    a.0.Returned? && a.0.value != map[]
  }

  /** The providers loop from answer i on: the index of the first winning
      answer, with its result, and the number of HTTP requests made up to
      and including it (all of them when none wins). */
  function FirstAnswer(answers: seq<(Outcome<Dict, ProviderError>, nat)>, i: nat): (r: (Option<(nat, Dict)>, nat))
    ensures r.0.Some? ==> i <= r.0.value.0 < |answers| && Wins(answers[r.0.value.0])
                          && answers[r.0.value.0].0 == Returned(r.0.value.1)
    ensures r.0.Some? ==> forall j :: i <= j < r.0.value.0 ==> !Wins(answers[j])
    ensures r.0.None? ==> forall j :: i <= j < |answers| ==> !Wins(answers[j])
    decreases |answers| - i
  {
    if i >= |answers| then (None, 0)
    else if Wins(answers[i]) then (Some((i, answers[i].0.value)), answers[i].1)
    else
      var (win, rest) := FirstAnswer(answers, i + 1);
      (win, answers[i].1 + rest)
  }

  /** The providers loop of translate_word on a word. */
  function ProviderRun(providers: seq<Provider>, word: string): (Option<(nat, Dict)>, nat) {
    FirstAnswer(Answers(providers, word), 0)
  }

  /** The providers loop's winner is the first provider that produces a
      truthy result, and the result is that provider's; with no winner, no
      provider produces one. */
  lemma ProviderRunFirst(providers: seq<Provider>, word: string)
    ensures var win := ProviderRun(providers, word).0;
            && (win.Some? ==> win.value.0 < |providers| && Produces(providers[win.value.0], word)
                              && Retried(Calls(providers[win.value.0], word), MaxRetries).0 == Returned(win.value.1)
                              && forall j :: 0 <= j < win.value.0 ==> !Produces(providers[j], word))
            && (win.None? ==> forall j :: 0 <= j < |providers| ==> !Produces(providers[j], word))
  {
    var answers := Answers(providers, word);
    assert forall j :: 0 <= j < |providers| ==> (Wins(answers[j]) <==> Produces(providers[j], word));
  }

  /** The cache loop from provider i on: the index of the first provider
      under whose name a truthy result is cached for the word, with it. */
  function FirstCached(rows: map<string, CacheRow>, healthy: bool, providers: seq<Provider>,
                       word: string, i: nat): (r: Option<(nat, Dict)>)
    ensures r.Some? ==> i <= r.value.0 < |providers| && r.value.1 != map[]
                        && Lookup(rows, healthy, word, providers[r.value.0].name) == Some(r.value.1)
    ensures r.Some? ==> forall j :: i <= j < r.value.0 ==>
                          Lookup(rows, healthy, word, providers[j].name) in {None, Some(map[])}
    ensures r.None? ==> forall j :: i <= j < |providers| ==>
                          Lookup(rows, healthy, word, providers[j].name) in {None, Some(map[])}
    decreases |providers| - i
  {
    if i >= |providers| then None
    else match Lookup(rows, healthy, word, providers[i].name)
      case Some(d) =>
        if d != map[] then Some((i, d)) else FirstCached(rows, healthy, providers, word, i + 1)
      case None => FirstCached(rows, healthy, providers, word, i + 1)
  }

  /** One translate_word call: its result, the table afterwards, and how
      many cache reads and HTTP requests it made. */
  datatype WordRun = WordRun(result: Option<Dict>, rows: map<string, CacheRow>, cacheReads: nat, requests: nat)

  function TranslateRun(rows: map<string, CacheRow>, healthy: bool, useCache: bool,
                        providers: seq<Provider>, word: string, now: int): (r: WordRun)
    ensures word == "" || !IsRussianWord(word) ==> r == WordRun(None, rows, 0, 0)
    ensures !useCache ==> r.cacheReads == 0 && r.rows == rows
    ensures r.cacheReads <= |providers|
  {
    if word == "" || !IsRussianWord(word) then WordRun(None, rows, 0, 0)
    else
      var w := CleanWord(word);
      var hit := if useCache then FirstCached(rows, healthy, providers, w, 0) else None;
      if hit.Some? then WordRun(Some(hit.value.1), rows, hit.value.0 + 1, 0)
      else
        var lookups := if useCache then |providers| else 0;
        var (win, requests) := ProviderRun(providers, w);
        match win
        case Some((i, d)) =>
          var rows' := if useCache then Stored(rows, healthy, w, providers[i].name, d, now) else rows;
          WordRun(Some(d), rows', lookups, requests)
        case None => WordRun(None, rows, lookups, requests)
  }

  /** Every cached result is one whose "original" is the row's word. */
  ghost predicate CacheValid(rows: map<string, CacheRow>) {
    forall k :: k in rows ==> "original" in rows[k].result && rows[k].result["original"] == JStr(k)
  }

  class RussianTranslator {
    const useCache: bool
    const cache: TranslationCache
    const providers: seq<Provider>

    /** The translator as built by the program: one provider, "openrouter". */
    constructor (useCache: bool, cache: TranslationCache, http: (string, nat) -> HttpReply, loads: Loads)
      ensures this.useCache == useCache && this.cache == cache
      ensures providers == [OpenRouter(http, loads)]
    {
      this.useCache := useCache;
      this.cache := cache;
      this.providers := [OpenRouter(http, loads)];
    }

    /** The cache loop of translate_word: cache.get(word, name) for each
        provider in turn, stopping at the first truthy result. Returns that
        hit, if any, and the number of reads made. */
    method ReadCache(w: string) returns (hit: Option<(nat, Dict)>, cacheReads: nat)
      ensures hit == FirstCached(cache.rows, cache.healthy, providers, w, 0)
      ensures cacheReads == if hit.Some? then hit.value.0 + 1 else |providers|
    {
      var j := 0;
      while j < |providers|
        invariant 0 <= j <= |providers|
        invariant FirstCached(cache.rows, cache.healthy, providers, w, 0)
                  == FirstCached(cache.rows, cache.healthy, providers, w, j)
      {
        var cached := cache.Get(w, providers[j].name);
        if cached.Some? && cached.value != map[] {
          return Some((j, cached.value)), j + 1;
        }
        j := j + 1;
      }
      return None, |providers|;
    }

    /** The providers loop of translate_word: each provider's decorated
        translate in turn, stopping at the first truthy result; a provider
        that raises is passed over. Returns the winner and the number of
        HTTP requests made. */
    method AskProviders(w: string) returns (win: Option<(nat, Dict)>, requests: nat)
      ensures (win, requests) == ProviderRun(providers, w)
    {
      ghost var answers := Answers(providers, w);
      requests := 0;
      var i := 0;
      while i < |providers|
        invariant 0 <= i <= |providers|
        invariant FirstAnswer(answers, 0) == (FirstAnswer(answers, i).0, requests + FirstAnswer(answers, i).1)
      {
        var outcome, calls := AskProvider(providers[i], w);
        assert answers[i] == (outcome, calls);
        requests := requests + calls;
        if outcome.Returned? && outcome.value != map[] {
          return Some((i, outcome.value)), requests;
        }
        i := i + 1;
      }
      return None, requests;
    }

    /** translate_word(word), at time now; also returns the number of cache
        reads and HTTP requests it made. */
    method TranslateWord(word: string, now: int) returns (r: Option<Dict>, cacheReads: nat, requests: nat)
      modifies cache
      ensures cache.healthy == old(cache.healthy)
      ensures WordRun(r, cache.rows, cacheReads, requests)
              == TranslateRun(old(cache.rows), cache.healthy, useCache, providers, word, now)
    {
      cacheReads, requests := 0, 0;
      if word == "" || !IsRussianWord(word) {
        return None, 0, 0;
      }
      var w := CleanWord(word);
      if useCache {
        var hit;
        hit, cacheReads := ReadCache(w);
        if hit.Some? {
          return Some(hit.value.1), cacheReads, 0;
        }
      }
      var win;
      win, requests := AskProviders(w);
      if win.Some? {
        var (i, d) := win.value;
        if useCache {
          cache.Set(w, providers[i].name, d, now);
        }
        r := Some(d);
      } else {
        r := None;
      }
    }

    /** batch_translate(words), run one word after another in the order of
        list(set(words)). The ghost outputs give the result of each
        translate_word call and the table before and after each of them. */
    method BatchTranslate(words: seq<string>, now: int)
      returns (results: seq<Dict>, order: seq<string>, ghost outcomes: seq<Option<Dict>>,
               ghost states: seq<map<string, CacheRow>>)
      modifies cache
      ensures cache.healthy == old(cache.healthy)
      ensures words == [] ==> results == [] && cache.rows == old(cache.rows)
      ensures forall w :: w in order <==> w in words
      ensures forall i, j :: 0 <= i < j < |order| ==> order[i] != order[j]
      ensures |order| == |set w | w in words|
      ensures |outcomes| == |order| && |states| == |order| + 1
      ensures states[0] == old(cache.rows) && states[|order|] == cache.rows
      ensures forall i :: 0 <= i < |order| ==>
                Step(Runner(cache.healthy, useCache, providers, now), states[i], order[i], outcomes[i], states[i + 1])
      ensures results == Somes(outcomes)
    {
      results, order, outcomes, states := [], [], [], [cache.rows];
      if words == [] {
        return;
      }
      order := ListOfSet(set w | w in words);
      results, outcomes, states := TranslateEach(order, now);
    }

    /** The loop of batch_translate: translate_word on each word in turn,
        keeping the truthy results. */
    method TranslateEach(order: seq<string>, now: int)
      returns (results: seq<Dict>, ghost outcomes: seq<Option<Dict>>, ghost states: seq<map<string, CacheRow>>)
      modifies cache
      ensures cache.healthy == old(cache.healthy)
      ensures |outcomes| == |order| && |states| == |order| + 1
      ensures states[0] == old(cache.rows) && states[|order|] == cache.rows
      ensures forall i :: 0 <= i < |order| ==>
                Step(Runner(cache.healthy, useCache, providers, now), states[i], order[i], outcomes[i], states[i + 1])
      ensures results == Somes(outcomes)
    {
      results, outcomes, states := [], [], [cache.rows];
      for i := 0 to |order|
        invariant cache.healthy == old(cache.healthy)
        invariant |outcomes| == i && |states| == i + 1
        invariant states[0] == old(cache.rows) && states[i] == cache.rows
        invariant forall k :: 0 <= k < i ==>
                    Step(Runner(cache.healthy, useCache, providers, now), states[k], order[k], outcomes[k], states[k + 1])
        invariant results == Somes(outcomes)
      {
        ghost var before := cache.rows;
        var translation, _, _ := TranslateWord(order[i], now);
        StepsExtend(Runner(cache.healthy, useCache, providers, now), order, outcomes, states, translation, cache.rows);
        if translation.Some? {
          results := results + [translation.value];
        }
        SomesSnoc(outcomes, translation);
        outcomes, states := outcomes + [translation], states + [cache.rows];
      }
    }
  }

  /** One provider's decorated translate: its outcome and how many HTTP
      requests it made; the sleeps between them are not kept. */
  method AskProvider(p: Provider, w: string) returns (outcome: Outcome<Dict, ProviderError>, calls: nat)
    ensures (outcome, calls) == Retried(Calls(p, w), MaxRetries)
  {
    var sleeps;
    outcome, calls, sleeps := RetryWithBackoff(Calls(p, w), MaxRetries, InitialBackoff, BackoffFactor);
  }

  /** list(set(...)): the elements of a set, each once, in some order. */
  method ListOfSet(s: set<string>) returns (r: seq<string>)
    ensures forall x :: x in r <==> x in s
    ensures forall i, j :: 0 <= i < j < |r| ==> r[i] != r[j]
    ensures |r| == |s|
  {
    r := [];
    var remaining := s;
    while remaining != {}
      invariant remaining <= s
      invariant forall x :: x in s <==> x in r || x in remaining
      invariant forall x :: x in r ==> x !in remaining
      invariant forall i, j :: 0 <= i < j < |r| ==> r[i] != r[j]
      invariant |r| + |remaining| == |s|
      decreases remaining
    {
      var x :| x in remaining;
      r := r + [x];
      remaining := remaining - {x};
    }
  }

  /** What translate_word does to a table and a word, at a fixed time and
      with fixed providers. */
  function Runner(healthy: bool, useCache: bool, providers: seq<Provider>, now: int)
    : (map<string, CacheRow>, string) -> WordRun
  {
    (rows, word) => TranslateRun(rows, healthy, useCache, providers, word, now)
  }

  /** One translate_word call of a batch: the word's outcome and the table
      after it, from the table before it. */
  ghost predicate Step(run: (map<string, CacheRow>, string) -> WordRun,
                       before: map<string, CacheRow>, word: string, outcome: Option<Dict>,
                       after: map<string, CacheRow>) {
    outcome == run(before, word).result && after == run(before, word).rows
  }

  /** The calls of a batch so far, extended by one more. */
  lemma StepsExtend(run: (map<string, CacheRow>, string) -> WordRun,
                    order: seq<string>, outcomes: seq<Option<Dict>>, states: seq<map<string, CacheRow>>,
                    outcome: Option<Dict>, after: map<string, CacheRow>)
    requires |states| == |outcomes| + 1 && |outcomes| < |order|
    requires forall k :: 0 <= k < |outcomes| ==> Step(run, states[k], order[k], outcomes[k], states[k + 1])
    requires Step(run, states[|outcomes|], order[|outcomes|], outcome, after)
    ensures var outcomes', states' := outcomes + [outcome], states + [after];
            forall k :: 0 <= k < |outcomes'| ==> Step(run, states'[k], order[k], outcomes'[k], states'[k + 1])
  {
    var outcomes', states' := outcomes + [outcome], states + [after];
    forall k | 0 <= k < |outcomes'|
      ensures Step(run, states'[k], order[k], outcomes'[k], states'[k + 1])
    {
      if k < |outcomes| {
        assert states'[k] == states[k] && states'[k + 1] == states[k + 1] && outcomes'[k] == outcomes[k];
      }
    }
  }

  /** The values of the Some entries, in order: what `if translation:
      translations.append(translation)` keeps. */
  function Somes<T>(s: seq<Option<T>>): (r: seq<T>)
    ensures |r| <= |s|
  {
    if s == [] then []
    else if s[0].Some? then [s[0].value] + Somes(s[1..])
    else Somes(s[1..])
  }

  lemma {:induction false} SomesSnoc<T>(s: seq<Option<T>>, x: Option<T>)
    ensures Somes(s + [x]) == Somes(s) + (if x.Some? then [x.value] else [])
  {
    if s != [] {
      assert (s + [x])[1..] == s[1..] + [x];
      SomesSnoc(s[1..], x);
    }
  }

  /** Somes keeps exactly the values of the Some entries. */
  lemma {:induction false} SomesMembers<T>(s: seq<Option<T>>, v: T)
    ensures v in Somes(s) <==> Some(v) in s
  {
    if s != [] {
      SomesMembers(s[1..], v);
      assert s == [s[0]] + s[1..];
    }
  }

  /** With a valid cache, a result of translate_word is never empty and its
      "original" is the cleaned word. */
  lemma RunOriginal(rows: map<string, CacheRow>, healthy: bool, useCache: bool,
                    providers: seq<Provider>, word: string, now: int)
    requires CacheValid(rows)
    requires forall p :: p in providers ==> Faithful(p)
    ensures var r := TranslateRun(rows, healthy, useCache, providers, word, now).result;
            r.Some? ==> r.value != map[] && "original" in r.value && r.value["original"] == JStr(CleanWord(word))
  {
    if word != "" && IsRussianWord(word) {
      var w := CleanWord(word);
      LowerOfLower(w);
      var hit := if useCache then FirstCached(rows, healthy, providers, w, 0) else None;
      if hit.None? {
        var win := ProviderRun(providers, w).0;
        ProviderRunFirst(providers, w);
        if win.Some? {
          var (i, d) := win.value;
          RetriedShape(Calls(providers[i], w), MaxRetries);
          assert providers[i] in providers;
        }
      }
    }
  }

  /** translate_word keeps the cache valid: it only ever stores a result
      under the word that result is for. */
  lemma RunKeepsCacheValid(rows: map<string, CacheRow>, healthy: bool, useCache: bool,
                           providers: seq<Provider>, word: string, now: int)
    requires CacheValid(rows)
    requires forall p :: p in providers ==> Faithful(p)
    ensures CacheValid(TranslateRun(rows, healthy, useCache, providers, word, now).rows)
  {
    if word != "" && IsRussianWord(word) {
      var w := CleanWord(word);
      LowerOfLower(w);
      var win := ProviderRun(providers, w).0;
      ProviderRunFirst(providers, w);
      if win.Some? {
        var (i, d) := win.value;
        RetriedShape(Calls(providers[i], w), MaxRetries);
        assert providers[i] in providers;
      }
    }
  }

  /** A cache hit answers without any HTTP request and leaves the table as
      it was. */
  lemma CacheHitMakesNoRequest(rows: map<string, CacheRow>, healthy: bool,
                               providers: seq<Provider>, word: string, now: int)
    requires word != "" && IsRussianWord(word)
    requires FirstCached(rows, healthy, providers, CleanWord(word), 0).Some?
    ensures var run := TranslateRun(rows, healthy, true, providers, word, now);
            && run.requests == 0 && run.rows == rows
            && run.result == Some(FirstCached(rows, healthy, providers, CleanWord(word), 0).value.1)
  {
  }

  /** On a miss, the first provider with a truthy result wins and its result
      is stored under the cleaned word and that provider's name; when no
      provider has one, the result is None and nothing is stored. */
  lemma MissAsksProvidersInOrder(rows: map<string, CacheRow>, healthy: bool, useCache: bool,
                                 providers: seq<Provider>, word: string, now: int)
    requires word != "" && IsRussianWord(word)
    requires !useCache || FirstCached(rows, healthy, providers, CleanWord(word), 0).None?
    ensures var run := TranslateRun(rows, healthy, useCache, providers, word, now);
            var w := CleanWord(word);
            && (run.result.Some? ==>
                  exists i :: 0 <= i < |providers| && Produces(providers[i], w)
                    && (forall j :: 0 <= j < i ==> !Produces(providers[j], w))
                    && Retried(Calls(providers[i], w), MaxRetries).0 == Returned(run.result.value)
                    && run.rows == (if useCache then Stored(rows, healthy, w, providers[i].name, run.result.value, now) else rows))
            && (run.result.None? ==>
                  (forall j :: 0 <= j < |providers| ==> !Produces(providers[j], w)) && run.rows == rows)
  {
    var w := CleanWord(word);
    var win := ProviderRun(providers, w).0;
    ProviderRunFirst(providers, w);
    if win.Some? {
      assert 0 <= win.value.0 < |providers|;
    }
  }

  /** After a word was translated by a provider into a healthy cache, the
      same word (or any word that cleans to it) is answered from the cache,
      with the same result and no HTTP request. */
  lemma {:induction false} SecondCallIsCached(rows: map<string, CacheRow>, providers: seq<Provider>,
                                              word: string, again: string, now: int, later: int)
    requires word != "" && IsRussianWord(word)
    requires again != "" && IsRussianWord(again) && CleanWord(again) == CleanWord(word)
    requires FirstCached(rows, true, providers, CleanWord(word), 0).None?
    requires TranslateRun(rows, true, true, providers, word, now).result.Some?
    ensures var first := TranslateRun(rows, true, true, providers, word, now);
            var second := TranslateRun(first.rows, true, true, providers, again, later);
            && second.result == first.result
            && second.requests == 0
            && second.rows == first.rows
  {
    var w := CleanWord(word);
    LowerOfLower(w);
    var first := TranslateRun(rows, true, true, providers, word, now);
    ProviderRunFirst(providers, w);
    var (i, d) := ProviderRun(providers, w).0.value;
    assert first.rows == Stored(rows, true, w, providers[i].name, d, now);
    FirstCachedFinds(first.rows, providers, w, providers[i].name, d, 0, i);
  }

  /** When the table's row for word came from provider name, the cache loop
      from j, with provider i named name and i >= j, finds that row's result. */
  lemma {:induction false} FirstCachedFinds(rows: map<string, CacheRow>, providers: seq<Provider>, word: string,
                                            name: string, d: Dict, j: nat, i: nat)
    requires IsLower(word) && word in rows && rows[word].provider == name && rows[word].result == d
    requires d != map[]
    requires j <= i < |providers| && providers[i].name == name
    ensures FirstCached(rows, true, providers, word, j).Some?
    ensures FirstCached(rows, true, providers, word, j).value.1 == d
    decreases i - j
  {
    LowerOfLower(word);
    if providers[j].name != name {
      FirstCachedFinds(rows, providers, word, name, d, j + 1, i);
    }
  }

  /** translate_word, at any time and with faithful providers, keeps every
      valid table valid. */
  lemma RunnerKeepsCacheValid(healthy: bool, useCache: bool, providers: seq<Provider>, now: int)
    requires forall p :: p in providers ==> Faithful(p)
    ensures forall rows, word :: CacheValid(rows) ==> CacheValid(Runner(healthy, useCache, providers, now)(rows, word).rows)
  {
    forall rows, word | CacheValid(rows)
      ensures CacheValid(Runner(healthy, useCache, providers, now)(rows, word).rows)
    {
      RunKeepsCacheValid(rows, healthy, useCache, providers, word, now);
    }
  }

  /** Through a batch of calls that each keep the cache valid, the cache
      stays valid from one call to the next. */
  lemma {:induction false} BatchKeepsCacheValid(run: (map<string, CacheRow>, string) -> WordRun,
                                                order: seq<string>, outcomes: seq<Option<Dict>>,
                                                states: seq<map<string, CacheRow>>, n: nat)
    requires |outcomes| == |order| && |states| == |order| + 1 && n <= |order|
    requires CacheValid(states[0])
    requires forall rows, word :: CacheValid(rows) ==> CacheValid(run(rows, word).rows)
    requires forall i :: 0 <= i < |order| ==> Step(run, states[i], order[i], outcomes[i], states[i + 1])
    ensures CacheValid(states[n])
  {
    if n > 0 {
      BatchKeepsCacheValid(run, order, outcomes, states, n - 1);
      assert Step(run, states[n - 1], order[n - 1], outcomes[n - 1], states[n]);
    }
  }

  /** With a valid cache, every result of a batch is non-empty and is for
      one of the words, each word giving at most one result. */
  lemma BatchOriginals(healthy: bool, useCache: bool, providers: seq<Provider>, now: int,
                       order: seq<string>, outcomes: seq<Option<Dict>>, states: seq<map<string, CacheRow>>)
    requires |outcomes| == |order| && |states| == |order| + 1
    requires CacheValid(states[0]) && forall p :: p in providers ==> Faithful(p)
    requires forall i :: 0 <= i < |order| ==>
               Step(Runner(healthy, useCache, providers, now), states[i], order[i], outcomes[i], states[i + 1])
    ensures forall i :: 0 <= i < |order| && outcomes[i].Some? ==>
              outcomes[i].value != map[] && "original" in outcomes[i].value
              && outcomes[i].value["original"] == JStr(CleanWord(order[i]))
  {
    var run := Runner(healthy, useCache, providers, now);
    RunnerKeepsCacheValid(healthy, useCache, providers, now);
    forall i | 0 <= i < |order| && outcomes[i].Some?
      ensures outcomes[i].value != map[] && "original" in outcomes[i].value
              && outcomes[i].value["original"] == JStr(CleanWord(order[i]))
    {
      BatchKeepsCacheValid(run, order, outcomes, states, i);
      assert Step(run, states[i], order[i], outcomes[i], states[i + 1]);
      RunOriginal(states[i], healthy, useCache, providers, order[i], now);
    }
  }

  /** An order that lists the distinct words of a batch without repeats has
      one entry per distinct word, each at a single position, so a batch
      makes one translate_word call per distinct word and keeps at most one
      result for each. */
  lemma BatchDeduplicates(words: seq<string>, order: seq<string>, outcomes: seq<Option<Dict>>)
    requires forall w :: w in order <==> w in words
    requires forall i, j :: 0 <= i < j < |order| ==> order[i] != order[j]
    requires |outcomes| == |order|
    ensures |order| == |set w | w in words|
    ensures forall w :: w in words ==> exists i :: 0 <= i < |order| && order[i] == w
                                        && forall j :: 0 <= j < |order| && order[j] == w ==> j == i
    ensures |Somes(outcomes)| <= |set w | w in words|
  {
    DistinctCard(order);
    assert (set w | w in order) == (set w | w in words);
    forall w | w in words
      ensures exists i :: 0 <= i < |order| && order[i] == w
                          && forall j :: 0 <= j < |order| && order[j] == w ==> j == i
    {
      var i :| 0 <= i < |order| && order[i] == w;
    }
  }

  /** A sequence without repeats has as many distinct elements as entries. */
  lemma {:induction false} DistinctCard(s: seq<string>)
    requires forall i, j :: 0 <= i < j < |s| ==> s[i] != s[j]
    ensures |set w | w in s| == |s|
  {
    if s != [] {
      var init := s[..|s| - 1];
      DistinctCard(init);
      assert (set w | w in s) == (set w | w in init) + {s[|s| - 1]};
      assert s[|s| - 1] !in (set w | w in init);
    }
  }

}
