/** sdp-service/src/sdp/app.py: the status-code decision of the `/predict`
    and `/health` endpoints. The request is reduced to the facts the handler
    looks at, and the prediction service is a parameter. */
module PredictService {
  import opened Outcomes

  /** What `request.get_json()` yields: a parse failure raises; an object is
      tested by its keys, an array by its string elements, a string by
      substring, and `in` on null, a number or a boolean raises. */
  datatype Body =
    | Malformed
    | JObject(keys: set<string>)
    | JArray(texts: seq<string>)
    | JString(text: string)
    | JScalar

  /** What the prediction service does with an accepted body. */
  datatype Prediction = Returned(payload: string) | Raised

  datatype ErrorKind = Unavailable | NotJson | Incomplete(required: seq<string>) | Internal

  datatype Reply = Failure(kind: ErrorKind) | Payload(payload: string) | Status(status: string)

  datatype Response = Response(code: int, reply: Reply)

  const RequiredKeys: seq<string> := ["PARTIDO", "TX_APROVACAO_5ANO", "TX_REPROVACAO_5ANO", "TX_ABANDONO_5ANO"]

  /** `key` occurs in `text` starting at position `i`. */
  ghost predicate OccursAt(key: string, text: string, i: int)
  {
    0 <= i <= |text| - |key| && text[i..i + |key|] == key
  }

  ghost predicate Substring(key: string, text: string)
  {
    exists i :: OccursAt(key, text, i)
  }

  /** Python's `key in data`; None when the test raises. */
  function Contains(body: Body, key: string): (r: Option<bool>)
    ensures r.None? <==> body.Malformed? || body.JScalar?
    ensures body.JObject? ==> r == Some(key in body.keys)
    ensures body.JArray? ==> r == Some(key in body.texts)
    ensures body.JString? ==> (r == Some(true) <==> Substring(key, body.text))
  {
    match body
    case Malformed => None
    case JScalar => None
    case JObject(keys) => Some(key in keys)
    case JArray(texts) => Some(key in texts)
    case JString(text) => Some(SubstringAt(key, text, 0))
  }

  /** Whether `key` occurs in `text` at or after position `from`. */
  function SubstringAt(key: string, text: string, from: nat): (r: bool)
    ensures r <==> exists i :: from <= i && OccursAt(key, text, i)
    decreases |text| - from
  {
    if from + |key| > |text| then false
    else if text[from..from + |key|] == key then
      assert OccursAt(key, text, from);
      true
    else
      assert !OccursAt(key, text, from);
      SubstringAt(key, text, from + 1)
  }

  /** Python's short-circuiting `all(key in data for key in keys)`; None when
      a test raises before a missing key is found. */
  function AllPresent(body: Body, keys: seq<string>): (r: Option<bool>)
    ensures r.None? <==> keys != [] && (body.Malformed? || body.JScalar?)
    ensures r == Some(true) <==> r.Some? && forall k :: k in keys ==> Contains(body, k) == Some(true)
  {
    if keys == [] then Some(true)
    else
      match Contains(body, keys[0])
      case None => None
      case Some(false) => Some(false)
      case Some(true) => AllPresent(body, keys[1..])
  }

  /** The body passes validation: every required key is present. */
  ghost predicate Complete(body: Body)
  {
    forall k :: k in RequiredKeys ==> Contains(body, k) == Some(true)
  }

  /** The `/predict` handler: 503 while the service is down, 400 for a
      request not declared JSON, then inside the exception guard 400 for a
      body missing a required key, the service's result with 200, and 500
      for anything raised on the way. */
  function Predict(available: bool, isJson: bool, body: Body, predict: Body -> Prediction): (r: Response)
    ensures r.code == 503 <==> !available
    ensures r.code == 400 <==> available && (!isJson || (!body.Malformed? && !body.JScalar? && !Complete(body)))
    ensures r.code == 500 <==> available && isJson && (body.Malformed? || body.JScalar? || (Complete(body) && predict(body).Raised?))
    ensures r.code == 200 <==> available && isJson && Complete(body) && predict(body).Returned?
    ensures r.code == 200 ==> r.reply == Payload(predict(body).payload)
    ensures r.code == 400 && isJson ==> r.reply == Failure(Incomplete(RequiredKeys))
  {
    if !available then Response(503, Failure(Unavailable))
    else if !isJson then Response(400, Failure(NotJson))
    else
      match AllPresent(body, RequiredKeys)
      case None => Response(500, Failure(Internal))
      case Some(false) => Response(400, Failure(Incomplete(RequiredKeys)))
      case Some(true) =>
        match predict(body)
        case Raised => Response(500, Failure(Internal))
        case Returned(p) => Response(200, Payload(p))
  }

  /** A down service answers 503 whatever the request. */
  lemma AvailabilityFirst(isJson: bool, body: Body, predict: Body -> Prediction,
                          isJson': bool, body': Body, predict': Body -> Prediction)
    ensures Predict(false, isJson, body, predict) == Predict(false, isJson', body', predict')
    ensures Predict(false, isJson, body, predict).code == 503
  {
  }

  /** A missing required key is answered with 400 before the service is
      consulted, so the service's behaviour does not matter. */
  lemma MissingKeyRejected(keys: set<string>, key: string, predict: Body -> Prediction, predict': Body -> Prediction)
    requires key in RequiredKeys && key !in keys
    ensures Predict(true, true, JObject(keys), predict) == Predict(true, true, JObject(keys), predict')
    ensures Predict(true, true, JObject(keys), predict).code == 400
  {
    assert Contains(JObject(keys), key) == Some(false);
  }

  /** Only presence is checked: any object holding the four keys, whatever
      else it holds, reaches the service. */
  lemma ExtraKeysAllowed(keys: set<string>, predict: Body -> Prediction)
    requires forall k :: k in RequiredKeys ==> k in keys
    ensures Predict(true, true, JObject(keys), predict).code == (if predict(JObject(keys)).Raised? then 500 else 200)
  {
  }

  lemma OccursBetween(text: string, pre: string, key: string, post: string)
    requires text == pre + key + post
    ensures Contains(JString(text), key) == Some(true)
  {
    assert text[|pre|..|pre| + |key|] == key;
    assert OccursAt(key, text, |pre|);
  }

  /** A JSON string naming all four keys as substrings also reaches the
      service, since `in` on a string is a substring test. */
  lemma StringBodyReachesService(predict: Body -> Prediction)
    ensures Predict(true, true, JString(SpacedKeys), predict).code == (if predict(JString(SpacedKeys)).Raised? then 500 else 200)
  {
    SpacedKeysComplete();
  }

  /** Each of four words occurs in the words joined by spaces. */
  lemma SpacedWords(k0: string, k1: string, k2: string, k3: string)
    ensures forall k :: k in [k0, k1, k2, k3] ==> Contains(JString(k0 + " " + k1 + " " + k2 + " " + k3), k) == Some(true)
  {
    var a := k0 + " ";
    var b := a + k1 + " ";
    var c := b + k2 + " ";
    var t := c + k3;
    OccursAtStart(t, k0, " " + k1 + " " + k2 + " " + k3);
    OccursBetween(t, a, k1, " " + k2 + " " + k3);
    OccursBetween(t, b, k2, " " + k3);
    OccursBetween(t, c, k3, []);
  }

  lemma OccursAtStart(text: string, key: string, post: string)
    requires text == key + post
    ensures Contains(JString(text), key) == Some(true)
  {
    OccursBetween(text, [], key, post);
  }

  lemma SpacedKeysComplete()
    ensures Complete(JString(SpacedKeys))
  {
    SpacedWords(RequiredKeys[0], RequiredKeys[1], RequiredKeys[2], RequiredKeys[3]);
    assert RequiredKeys == [RequiredKeys[0], RequiredKeys[1], RequiredKeys[2], RequiredKeys[3]];
  }

  /** The four required keys separated by spaces. */
  const SpacedKeys: string := RequiredKeys[0] + " " + RequiredKeys[1] + " " + RequiredKeys[2] + " " + RequiredKeys[3]

  /** A body holding only a feature vector under `data_tuple` is rejected
      with 400. */
  lemma FeatureVectorBodyRejected(predict: Body -> Prediction)
    ensures Predict(true, true, JObject({"data_tuple"}), predict).code == 400
  {
    assert Contains(JObject({"data_tuple"}), "PARTIDO") == Some(false);
  }

  /** The `/health` handler: 200 with status "ok" whether or not the
      prediction service loaded. */
  function Health(available: bool): (r: Response)
    ensures r.code == 200 && r.reply == Status("ok")
  {
    Response(200, Status("ok"))
  }
}
