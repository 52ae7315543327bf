/**
  The worker's job `callback`, without the model calls and the database
  write: the record starts as `{"job_id": ...}`, the front side's result is
  copied over it, and then each back-side entry with a truthy value
  overwrites the record's entry for that key.
 */
module JobMerge {

  /** A value `json.loads` can produce. */
  datatype Json =
    | JNull
    | JBool(b: bool)
    | JNumber(n: real)
    | JString(s: string)
    | JArray(items: seq<Json>)
    | JObject(fields: map<string, Json>)

  /** Python truthiness of a decoded JSON value: `if value:`. */
  predicate Truthy(v: Json) {
    match v
    case JNull => false
    case JBool(b) => b
    case JNumber(n) => n != 0.0
    case JString(s) => s != ""
    case JArray(items) => items != []
    case JObject(fields) => fields != map[]
  }

  /** A decoded JSON object: the job message, a per-side result, or the final record. */
  type Record = map<string, Json>

  /** `message.get("job_id")`. */
  function JobId(message: Record): Json {
    if "job_id" in message then message["job_id"] else JNull
  }

  /** The keys whose back-side value is truthy, and so take part in the merge. */
  function TruthyKeys(back: Record): set<string> {
    set k | k in back && Truthy(back[k])
  }

  /** The merge loop, as a whole: truthy back values win, every other entry of `rec` stays. */
  function MergeNonEmpty(rec: Record, back: Record): (r: Record)
    ensures r.Keys == rec.Keys + TruthyKeys(back)
    ensures forall k :: k in back && Truthy(back[k]) ==> r[k] == back[k]
    ensures forall k :: k in rec && k !in TruthyKeys(back) ==> r[k] == rec[k]
  {
    map k | k in rec.Keys + TruthyKeys(back) :: if k in TruthyKeys(back) then back[k] else rec[k]
  }

  /**
    The back-side merge loop: each back-side entry with a truthy value
    overwrites the record's entry. The keys are visited in an arbitrary order,
    and every order gives the same record.
   */
  method MergeBack(rec: Record, back: Record) returns (r: Record)
    ensures r == MergeNonEmpty(rec, back)
  {
    r := rec;
    var todo := back.Keys;
    while todo != {}
      invariant todo <= back.Keys
      invariant r.Keys == rec.Keys + (TruthyKeys(back) - todo)
      invariant forall k :: k in TruthyKeys(back) - todo ==> r[k] == back[k]
      invariant forall k :: k in rec && k !in TruthyKeys(back) - todo ==> r[k] == rec[k]
      decreases todo
    {
      var key :| key in todo;
      var value := back[key];
      if Truthy(value) {
        r := r[key := value];
      }
      todo := todo - {key};
    }
    assert r.Keys == MergeNonEmpty(rec, back).Keys;
  }

  /** The record before the back side is merged: `{"job_id": ...}` updated with the front result. */
  function FrontStage(message: Record, front: Record): (r: Record)
    ensures "job_id" in r
    ensures forall k :: k in r <==> k == "job_id" || ("front_image" in message && k in front)
    ensures forall k :: k in r ==>
              r[k] == (if "front_image" in message && k in front then front[k] else JobId(message))
  {
    var start := map["job_id" := JobId(message)];
    if "front_image" in message then start + front else start
  }

  /**
    The record `callback` stores, given the message and the two per-side
    results. The worker only computes a side's result when the message holds
    that side's image; otherwise the corresponding parameter is ignored.
   */
  function BuildResult(message: Record, front: Record, back: Record): (r: Record)
    ensures "job_id" in r
    ensures forall k :: k in r <==>
              || k == "job_id"
              || ("front_image" in message && k in front)
              || ("back_image" in message && k in back && Truthy(back[k]))
    ensures forall k :: k in r ==>
              r[k] == (if "back_image" in message && k in back && Truthy(back[k]) then back[k]
                       else if "front_image" in message && k in front then front[k]
                       else JobId(message))
  {
    var pre := FrontStage(message, front);
    if "back_image" in message then MergeNonEmpty(pre, back) else pre
  }

  /** A message with neither image yields exactly `{"job_id": job_id}`. */
  lemma NoImagesGivesJobIdOnly(message: Record, front: Record, back: Record)
    requires "front_image" !in message && "back_image" !in message
    ensures BuildResult(message, front, back) == map["job_id" := JobId(message)]
  {
  }

  /** The job id survives unless a side's result carries its own `job_id`. */
  lemma JobIdKept(message: Record, front: Record, back: Record)
    requires !("front_image" in message && "job_id" in front)
    requires !("back_image" in message && "job_id" in back && Truthy(back["job_id"]))
    ensures BuildResult(message, front, back)["job_id"] == JobId(message)
  {
  }

  /** A back-side entry with a falsy value changes nothing: the result is as if the key were absent. */
  lemma FalsyBackIgnored(message: Record, front: Record, back: Record, k: string)
    requires k in back && !Truthy(back[k])
    ensures BuildResult(message, front, back) == BuildResult(message, front, back - {k})
  {
    var r1 := BuildResult(message, front, back);
    var r2 := BuildResult(message, front, back - {k});
    assert r1.Keys == r2.Keys;
  }

  /** Keys the back side does not mention keep their pre-merge entry, or stay absent. */
  lemma MergeFrame(rec: Record, back: Record, k: string)
    requires k !in back
    ensures k in MergeNonEmpty(rec, back) <==> k in rec
    ensures k in rec ==> MergeNonEmpty(rec, back)[k] == rec[k]
  {
  }
}
