/** `OllamaEmbeddingProvider`: embeddings from an Ollama server. The client
    call `embeddings({ model, prompt })` is a parameter: a function from the
    model name and the prompt to what the call returns or throws. */
module EmbeddingProvider {
  import opened Base

  datatype ClientResponse = Responded(embedding: Vector) | Threw(cause: Thrown)

  type Client = (string, string) -> ClientResponse

  /** The initial dimension, that of nomic-embed-text. */
  const INITIAL_DIMENSIONS: nat := 768

  const EMPTY_EMBEDDING_MESSAGE := "Empty embedding returned from Ollama"

  predicate IsConnectionFailure(t: Thrown) {
    t.ErrorObject? && (Contains(t.message, "ECONNREFUSED") || Contains(t.message, "fetch failed"))
  }

  predicate IsModelMissing(t: Thrown) {
    t.ErrorObject? && (Contains(t.message, "not found") || Contains(t.message, "404"))
  }

  predicate IsContextOverflow(t: Thrown) {
    t.ErrorObject? && (Contains(t.message, "context length") || Contains(t.message, "input length"))
  }

  /** `handleError` followed by `throw error`: the first matching rule maps
      the thrown value to a typed error; anything else passes through. */
  function HandleError(t: Thrown): (e: Error)
    ensures e == OllamaConnectionError <==> IsConnectionFailure(t)
    ensures e == OllamaModelNotFoundError <==> !IsConnectionFailure(t) && IsModelMissing(t)
    ensures e == ContextLengthExceededError <==>
      !IsConnectionFailure(t) && !IsModelMissing(t) && IsContextOverflow(t)
    ensures e == Rethrown(t) <==> !IsConnectionFailure(t) && !IsModelMissing(t) && !IsContextOverflow(t)
    ensures t.NonErrorValue? ==> e == Rethrown(t)
  {
    if IsConnectionFailure(t) then OllamaConnectionError
    else if IsModelMissing(t) then OllamaModelNotFoundError
    else if IsContextOverflow(t) then ContextLengthExceededError
    else Rethrown(t)
  }

  /** What `embed` returns for one response of the client. */
  function EmbedOutcome(resp: ClientResponse): (r: Result<Vector>)
    ensures r.Ok? <==> resp.Responded? && |resp.embedding| > 0
    ensures r.Ok? ==> r.value == resp.embedding
    ensures resp.Threw? ==> r == Err(HandleError(resp.cause))
    ensures resp.Responded? && |resp.embedding| == 0 ==>
      r == Err(HandleError(ErrorObject(EMPTY_EMBEDDING_MESSAGE)))
  {
    match resp
    case Threw(t) => Err(HandleError(t))
    case Responded(v) => if |v| == 0 then Err(HandleError(ErrorObject(EMPTY_EMBEDDING_MESSAGE))) else Ok(v)
  }

  /** The dimension after one call: the length of a non-empty embedding. */
  function DimsAfter(resp: ClientResponse, d: nat): (r: nat)
    ensures resp.Responded? && |resp.embedding| > 0 ==> r == |resp.embedding|
    ensures !(resp.Responded? && |resp.embedding| > 0) ==> r == d
  {
    if resp.Responded? && |resp.embedding| > 0 then |resp.embedding| else d
  }

  /** `embedBatch`: the texts embedded one after the other, stopping at the
      first failure. */
  function EmbedAll(client: Client, model: string, texts: seq<string>): (r: Result<seq<Vector>>)
    ensures r.Ok? ==> |r.value| == |texts|
    ensures r.Ok? ==> forall i :: 0 <= i < |texts| ==> EmbedOutcome(client(model, texts[i])) == Ok(r.value[i])
    ensures r.Err? <==> exists i :: 0 <= i < |texts| && EmbedOutcome(client(model, texts[i])).Err?
  {
    if texts == [] then Ok([])
    else
      var first :- EmbedOutcome(client(model, texts[0]));
      var rest :- EmbedAll(client, model, texts[1..]);
      Ok([first] + rest)
  }

  /** The error of `embedBatch` is that of the first text that fails. */
  lemma {:induction false} EmbedAllFailsAtFirstError(client: Client, model: string, texts: seq<string>)
    requires EmbedAll(client, model, texts).Err?
    ensures exists i ::
      && 0 <= i < |texts|
      && (forall j :: 0 <= j < i ==> EmbedOutcome(client(model, texts[j])).Ok?)
      && EmbedOutcome(client(model, texts[i])).Err?
      && EmbedAll(client, model, texts).error == EmbedOutcome(client(model, texts[i])).error
  {
    if EmbedOutcome(client(model, texts[0])).Ok? {
      EmbedAllFailsAtFirstError(client, model, texts[1..]);
      var i :| 0 <= i < |texts[1..]| &&
        (forall j :: 0 <= j < i ==> EmbedOutcome(client(model, texts[1..][j])).Ok?) &&
        EmbedOutcome(client(model, texts[1..][i])).Err? &&
        EmbedAll(client, model, texts[1..]).error == EmbedOutcome(client(model, texts[1..][i])).error;
      assert forall j :: 0 <= j < i ==> texts[1..][j] == texts[j + 1];
      assert texts[1..][i] == texts[i + 1];
    } else {
      assert EmbedOutcome(client(model, texts[0])).Err?;
    }
  }

  /** The dimension after `embedBatch`: each successful text in turn sets it. */
  function DimsAfterAll(client: Client, model: string, texts: seq<string>, d: nat): nat {
    if texts == [] then d
    else
      var resp := client(model, texts[0]);
      if EmbedOutcome(resp).Err? then d else DimsAfterAll(client, model, texts[1..], DimsAfter(resp, d))
  }

  /** After a batch that succeeded on at least one text, the dimension is
      the length of the last embedding. */
  lemma {:induction false} DimsAfterAllIsLast(client: Client, model: string, texts: seq<string>, d: nat)
    requires |texts| > 0 && EmbedAll(client, model, texts).Ok?
    ensures DimsAfterAll(client, model, texts, d) == |client(model, texts[|texts| - 1]).embedding|
  {
    var resp := client(model, texts[0]);
    assert EmbedOutcome(resp).Ok?;
    if |texts| > 1 {
      assert EmbedAll(client, model, texts[1..]).Ok?;
      DimsAfterAllIsLast(client, model, texts[1..], DimsAfter(resp, d));
      assert texts[1..][|texts[1..]| - 1] == texts[|texts| - 1];
    }
  }

  /** `testConnection`'s failure kinds. */
  datatype TestFailure = ConnectionFailed | ModelNotFound

  datatype TestResult = TestResult(success: bool, error: Option<TestFailure>)

  /** `testConnection`'s answer for one response of the client. */
  function TestOutcome(resp: ClientResponse): (r: TestResult)
    ensures r.success <==> resp.Responded?
    ensures r.success <==> r.error.None?
    ensures resp.Threw? ==> (r.error == Some(ModelNotFound) <==> IsModelMissing(resp.cause))
  {
    match resp
    case Responded(_) => TestResult(true, None)
    case Threw(t) => if IsModelMissing(t) then TestResult(false, Some(ModelNotFound)) else TestResult(false, Some(ConnectionFailed))
  }

  /** `testConnection` reports success on a response that `embed` would
      refuse as empty. */
  lemma EmptyResponsePassesTestButNotEmbed()
    ensures TestOutcome(Responded([])).success
    ensures EmbedOutcome(Responded([])).Err?
  {
  }

  /** Where both classify a thrown value, `testConnection` and `embed`
      agree on a missing model unless the message also names a connection failure. */
  lemma ModelNotFoundAgrees(t: Thrown)
    requires TestOutcome(Threw(t)).error == Some(ModelNotFound)
    ensures IsConnectionFailure(t) || EmbedOutcome(Threw(t)) == Err(OllamaModelNotFoundError)
  {
  }

  class OllamaEmbeddingProvider {
    const model: string
    const client: Client
    var dimensions: nat

    constructor (model: string, client: Client)
      ensures this.model == model && this.client == client
      ensures dimensions == INITIAL_DIMENSIONS
    {
      this.model := model;
      this.client := client;
      dimensions := INITIAL_DIMENSIONS;
    }

    /** `embed`: a non-empty embedding, whose length becomes the dimension. */
    method Embed(text: string) returns (r: Result<Vector>)
      modifies this
      ensures r == EmbedOutcome(client(model, text))
      ensures dimensions == DimsAfter(client(model, text), old(dimensions))
    {
      var resp := client(model, text);
      match resp {
        case Threw(t) =>
          return Err(HandleError(t));
        case Responded(v) =>
          if |v| == 0 {
            return Err(HandleError(ErrorObject(EMPTY_EMBEDDING_MESSAGE)));
          }
          if |v| != dimensions {
            dimensions := |v|;
          }
          return Ok(v);
      }
    }

    /** `embedBatch`: `embed` on each text in order. */
    method EmbedBatch(texts: seq<string>) returns (r: Result<seq<Vector>>)
      modifies this
      ensures r == EmbedAll(client, model, texts)
      ensures dimensions == DimsAfterAll(client, model, texts, old(dimensions))
    {
      var results: seq<Vector> := [];
      for i := 0 to |texts|
        invariant EmbedAll(client, model, texts[..i]) == Ok(results)
        invariant DimsAfterAll(client, model, texts, old(dimensions)) ==
                  DimsAfterAll(client, model, texts[i..], dimensions)
      {
        ghost var before := dimensions;
        var e := Embed(texts[i]);
        if e.Err? {
          EmbedAllPrefixFails(client, model, texts, i);
          assert texts[i..][0] == texts[i];
          assert DimsAfterAll(client, model, texts[i..], before) == before;
          return Err(e.error);
        }
        assert texts[i..][0] == texts[i] && texts[i..][1..] == texts[i + 1..];
        EmbedAllExtend(client, model, texts[..i], texts[i]);
        assert texts[..i + 1] == texts[..i] + [texts[i]];
        results := results + [e.value];
      }
      assert texts[..|texts|] == texts;
      return Ok(results);
    }

    function GetModelName(): (name: string)
      reads this
      ensures name == model
    {
      model
    }

    function GetDimensions(): (d: nat)
      reads this
      ensures d == dimensions
    {
      dimensions
    }

    /** `testConnection`: never throws; a response with a non-empty
        embedding sets the dimension. */
    method TestConnection() returns (t: TestResult)
      modifies this
      ensures t == TestOutcome(client(model, "test"))
      ensures dimensions == DimsAfter(client(model, "test"), old(dimensions))
    {
      var resp := client(model, "test");
      match resp {
        case Responded(v) =>
          if |v| > 0 {
            dimensions := |v|;
          }
          return TestResult(true, None);
        case Threw(err) =>
          if err.ErrorObject? && (Contains(err.message, "not found") || Contains(err.message, "404")) {
            return TestResult(false, Some(ModelNotFound));
          }
          return TestResult(false, Some(ConnectionFailed));
      }
    }
  }

  lemma {:induction false} EmbedAllExtend(client: Client, model: string, texts: seq<string>, t: string)
    requires EmbedAll(client, model, texts).Ok? && EmbedOutcome(client(model, t)).Ok?
    ensures EmbedAll(client, model, texts + [t]) ==
            Ok(EmbedAll(client, model, texts).value + [EmbedOutcome(client(model, t)).value])
  {
    if texts != [] {
      assert (texts + [t])[0] == texts[0];
      assert (texts + [t])[1..] == texts[1..] + [t];
      EmbedAllExtend(client, model, texts[1..], t);
      var f := EmbedOutcome(client(model, texts[0])).value;
      var v := EmbedOutcome(client(model, t)).value;
      var rest := EmbedAll(client, model, texts[1..]).value;
      assert EmbedAll(client, model, texts) == Ok([f] + rest);
      assert EmbedAll(client, model, texts + [t]) == Ok([f] + (rest + [v]));
      assert [f] + (rest + [v]) == ([f] + rest) + [v];
    } else {
      assert texts + [t] == [t] && [t][1..] == [];
      assert EmbedAll(client, model, []) == Ok([]);
      var v := EmbedOutcome(client(model, t)).value;
      assert EmbedAll(client, model, [t]) == Ok([v] + []);
      assert [v] + [] == [] + [v];
    }
  }

  lemma {:induction false} EmbedAllPrefixFails(client: Client, model: string, texts: seq<string>, i: nat)
    requires i < |texts| && EmbedAll(client, model, texts[..i]).Ok?
    requires EmbedOutcome(client(model, texts[i])).Err?
    ensures EmbedAll(client, model, texts) == Err(EmbedOutcome(client(model, texts[i])).error)
  {
    if i > 0 {
      assert texts[..i][1..] == texts[1..][..i - 1];
      EmbedAllPrefixFails(client, model, texts[1..], i - 1);
    }
  }
}
