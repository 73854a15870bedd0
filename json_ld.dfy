/**
 * Selection of the JSON-LD block in `extract_video_data_real`
 * (app.py:147-157): scan the `application/ld+json` scripts in page order,
 * skip those `json.loads` rejects, and stop at the first object whose
 * `@type` is the string "VideoObject".
 *
 * HTML parsing is not modelled: the page is given as the list of its
 * script payloads, each already decoded. A payload that is not a JSON
 * object is never selected, so it is modelled as `None` together with the
 * payloads that fail to parse: for a list or a string `'@type' in data` is
 * false, or holds and the string indexing raises; for a number, a boolean
 * or null the `in` test itself raises `TypeError`; a raise skips the block.
 */
module JsonLd {
  import opened Wrappers
  import opened JsonValues

  /** A script payload: the decoded object, or `None` when it is skipped. */
  type Payload = Option<JsonObject>

  /** The block has an `@type` entry equal to the string "VideoObject". */
  predicate IsVideoObject(data: JsonObject) {
    "@type" in data && data["@type"] == JString("VideoObject")
  }

  predicate Selects(p: Payload) {
    p.Some? && IsVideoObject(p.value)
  }

  /** The block the scan settles on. */
  function FirstVideoObject(payloads: seq<Payload>): (r: Option<JsonObject>)
    ensures r.Some? ==> IsVideoObject(r.value)
    decreases |payloads|
  {
    if payloads == [] then None
    else if Selects(payloads[0]) then payloads[0]
    else FirstVideoObject(payloads[1..])
  }

  /**
   * The selected block is the first selectable payload, and there is none
   * exactly when no payload is a VideoObject.
   */
  lemma {:induction false} FirstVideoObjectIsFirst(payloads: seq<Payload>)
    ensures FirstVideoObject(payloads).None? <==> forall i :: 0 <= i < |payloads| ==> !Selects(payloads[i])
    ensures FirstVideoObject(payloads).Some? ==>
      exists i :: 0 <= i < |payloads| && payloads[i] == FirstVideoObject(payloads)
        && forall j :: 0 <= j < i ==> !Selects(payloads[j])
    decreases |payloads|
  {
    if payloads != [] && !Selects(payloads[0]) {
      var rest := payloads[1..];
      FirstVideoObjectIsFirst(rest);
      assert forall i :: 0 < i < |payloads| ==> payloads[i] == rest[i - 1];
      if FirstVideoObject(rest).Some? {
        var k :| 0 <= k < |rest| && rest[k] == FirstVideoObject(rest) && forall j :: 0 <= j < k ==> !Selects(rest[j]);
        assert payloads[k + 1] == rest[k];
      }
    }
  }

  /** Once a VideoObject is found the scan stops: whatever follows it is never inspected. */
  lemma {:induction false} LaterPayloadsIgnored(payloads: seq<Payload>, later: seq<Payload>)
    requires FirstVideoObject(payloads).Some?
    ensures FirstVideoObject(payloads + later) == FirstVideoObject(payloads)
    decreases |payloads|
  {
    if !Selects(payloads[0]) {
      assert (payloads + later)[1..] == payloads[1..] + later;
      LaterPayloadsIgnored(payloads[1..], later);
    }
  }

  /** The scanning loop of app.py:149-157, with its `continue` and `break`. */
  method SelectJsonLd(payloads: seq<Payload>) returns (jsonLd: Option<JsonObject>)
    ensures jsonLd == FirstVideoObject(payloads)
  {
    jsonLd := None;
    for i := 0 to |payloads|
      invariant jsonLd == None
      invariant FirstVideoObject(payloads[i..]) == FirstVideoObject(payloads)
    {
      assert payloads[i..][1..] == payloads[i + 1..];
      if payloads[i].None? {
        continue;
      }
      var data := payloads[i].value;
      if IsVideoObject(data) {
        jsonLd := Some(data);
        break;
      }
    }
  }
}
