/**
 * The ACME DNS-01 webhook for CoreDNS with an etcd backend: it turns a domain
 * into the etcd key CoreDNS serves the `_acme-challenge` TXT record from, puts
 * or deletes that key, and validates and dispatches the JSON requests.
 *
 * The etcd keyspace is a map held by `EtcdWebhook`; an exception raised by
 * the etcd client is the `fault` parameter (its message, when there is one).
 */
module AcmeEtcd {
  import opened Optional
  import opened Strings
  import opened AcmeChallenge

  /** Where a domain's challenge record lives: the base domain and the name below it. */
  datatype RecordName = RecordName(base: string, sub: string)

  /** The value written to etcd: the JSON object `{"text": ..., "ttl": ...}`. */
  datatype TxtRecord = TxtRecord(text: string, ttl: int)

  /** What `set_txt_record` and `delete_txt_record` return, with the keyspace after the call. */
  datatype Effect = Effect(records: map<string, TxtRecord>, success: bool, message: string)

  /** A validated request. */
  datatype Command = SetRecord(domain: string, challenge: string) | DeleteRecord(domain: string)

  datatype Parsed = Run(cmd: Command) | Reject(error: string)

  /** An HTTP response: the status code and the JSON body. */
  datatype Reply = Reply(code: int, body: Body)

  datatype Body = ErrorBody(error: string) | OutcomeBody(status: string, message: string)

  /** The labels of a domain once every trailing dot is gone. */
  function Labels(domain: string): (parts: seq<string>)
    ensures |parts| >= 1 && forall i :: 0 <= i < |parts| ==> '.' !in parts[i]
    ensures Join(parts, '.') == RStrip(domain, '.')
  {
    JoinSplit(RStrip(domain, '.'), '.');
    Split(RStrip(domain, '.'), '.')
  }

  /**
   * The base domain (the last two labels) and the challenge name below it
   * (`_acme-challenge`, followed by the leading labels when there are more
   * than two); None for a domain of fewer than two labels.
   */
  function ChallengeName(domain: string): (r: Option<RecordName>)
    ensures r.Some? <==> |Labels(domain)| >= 2
    ensures r.Some? ==> CHALLENGE_LABEL <= r.value.sub
  {
    var parts := Labels(domain);
    if |parts| >= 2 then
      var base := Join(parts[|parts| - 2..], '.');
      var sub := if |parts| > 2 then CHALLENGE_LABEL + "." + Join(parts[..|parts| - 2], '.') else CHALLENGE_LABEL;
      Some(RecordName(base, sub))
    else
      None
  }

  /** CoreDNS's etcd layout: `/coredns/<base>/<sub>/TXT`. */
  function KeyFor(n: RecordName): (key: string)
    ensures "/coredns/" + n.base + "/" <= key
    ensures |key| >= 4 && key[|key| - 4..] == "/TXT"
    ensures |"/coredns/" + n.base + "/"| + |n.sub| + 4 == |key|
    ensures SliceAt(key, |"/coredns/" + n.base + "/"|, n.sub)
  {
    "/coredns/" + n.base + "/" + n.sub + "/TXT"
  }

  /** What `set_txt_record` does to the keyspace and what it returns. */
  function SetEffect(records: map<string, TxtRecord>, domain: string, challenge: string, ttl: int,
                     fault: Option<string>): (e: Effect)
    ensures e.success <==> ChallengeName(domain).Some? && fault.None?
    ensures e.success ==> e.records == records[KeyFor(ChallengeName(domain).value) := TxtRecord(challenge, ttl)]
    ensures !e.success ==> e.records == records
    ensures ChallengeName(domain).None? ==> e.message == "Invalid domain format"
    ensures ChallengeName(domain).Some? && fault.Some? ==> e.message == fault.value
    ensures e.success ==> e.message == "Record created"
  {
    match ChallengeName(domain)
    case None => Effect(records, false, "Invalid domain format")
    case Some(n) =>
      if fault.Some? then Effect(records, false, fault.value)
      else Effect(records[KeyFor(n) := TxtRecord(challenge, ttl)], true, "Record created")
  }

  /** What `delete_txt_record` does to the keyspace and what it returns. */
  function DeleteEffect(records: map<string, TxtRecord>, domain: string, fault: Option<string>): (e: Effect)
    ensures e.success <==> ChallengeName(domain).Some? && fault.None?
    ensures e.success ==> e.records == records - {KeyFor(ChallengeName(domain).value)}
    ensures e.success && KeyFor(ChallengeName(domain).value) in records ==> e.message == "Record deleted"
    ensures e.success && KeyFor(ChallengeName(domain).value) !in records ==>
      e.message == "Record not found (already deleted)"
    ensures !e.success ==> e.records == records
    ensures ChallengeName(domain).None? ==> e.message == "Invalid domain format"
    ensures ChallengeName(domain).Some? && fault.Some? ==> e.message == fault.value
  {
    match ChallengeName(domain)
    case None => Effect(records, false, "Invalid domain format")
    case Some(n) =>
      if fault.Some? then Effect(records, false, fault.value)
      else if KeyFor(n) in records then Effect(records - {KeyFor(n)}, true, "Record deleted")
      else Effect(records, true, "Record not found (already deleted)")
  }

  /** A JSON field is truthy in Python: present and not the empty string. */
  predicate Given(data: map<string, string>, field: string)
  {
    field in data && data[field] != ""
  }

  /** `data.get('action', 'set')`. */
  function Action(data: map<string, string>): string
  {
    if "action" in data then data["action"] else "set"
  }

  /** The validation of `update_txt_record`: a command to run, or the message of a 400 reply. */
  function ParseUpdate(data: Option<map<string, string>>): (r: Parsed)
    ensures r.Run? <==>
      data.Some? && Given(data.value, "domain") &&
      ((Action(data.value) == "set" && Given(data.value, "challenge")) || Action(data.value) == "delete")
    ensures r.Run? ==> r.cmd.domain == data.value["domain"]
    ensures r.Run? ==> (r.cmd.SetRecord? <==> Action(data.value) == "set")
    ensures r.Run? && r.cmd.SetRecord? ==> r.cmd.challenge == data.value["challenge"]
    ensures (data.None? || data == Some(map[])) ==> r == Reject("No JSON data provided")
    ensures data.Some? && data.value != map[] && !Given(data.value, "domain") ==>
      r == Reject("Domain is required")
    ensures data.Some? && Given(data.value, "domain") && Action(data.value) == "set" && !Given(data.value, "challenge") ==>
      r == Reject("Challenge value is required for 'set' action")
    ensures data.Some? && Given(data.value, "domain") && Action(data.value) != "set" && Action(data.value) != "delete" ==>
      r == Reject("Invalid action: " + Action(data.value))
  {
    if data.None? || data.value == map[] then Reject("No JSON data provided")
    else
      var d := data.value;
      var action := Action(d);
      if !Given(d, "domain") then Reject("Domain is required")
      else if action == "set" then
        if !Given(d, "challenge") then Reject("Challenge value is required for 'set' action")
        else Run(SetRecord(d["domain"], d["challenge"]))
      else if action == "delete" then Run(DeleteRecord(d["domain"]))
      else Reject("Invalid action: " + action)
  }

  /** The reply for what a backend call returned: 200 on success, 500 otherwise. */
  function OutcomeReply(e: Effect): (r: Reply)
    ensures r.code == 200 <==> e.success
    ensures r.code == 200 || r.code == 500
    ensures r.body.OutcomeBody? && r.body.message == e.message
    ensures r.body.status == (if e.success then "success" else "error")
  {
    if e.success then Reply(200, OutcomeBody("success", e.message))
    else Reply(500, OutcomeBody("error", e.message))
  }

  /** What the legacy endpoints do before dispatching: force `action` on a non-empty body. */
  function ForceAction(data: Option<map<string, string>>, action: string): (r: Option<map<string, string>>)
    ensures data.Some? && data.value != map[] ==> r.Some? && Action(r.value) == action
    ensures data.None? || data.value == map[] ==> r == data
    ensures data.Some? && data.value != map[] ==>
      forall k :: k != "action" ==> (k in r.value <==> k in data.value) && (k in data.value ==> r.value[k] == data.value[k])
  {
    if data.Some? && data.value != map[] then Some(data.value["action" := action]) else data
  }

  /** A domain is accepted exactly when, trailing dots removed, it still holds a dot. */
  lemma ChallengeNameDefined(domain: string)
    ensures ChallengeName(domain).Some? <==> '.' in RStrip(domain, '.')
  {
    SplitCount(RStrip(domain, '.'), '.');
  }

  /**
   * The record CoreDNS serves is `_acme-challenge.` followed by the domain:
   * `sub` and `base` put back together give that name.
   */
  lemma ChallengeNameIsDomainName(domain: string)
    requires ChallengeName(domain).Some?
    ensures var n := ChallengeName(domain).value;
      n.sub + "." + n.base == CHALLENGE_LABEL + "." + RStrip(domain, '.')
  {
    var stripped := RStrip(domain, '.');
    var parts := Labels(domain);
    var n := ChallengeName(domain).value;
    JoinSplit(stripped, '.');
    if |parts| > 2 {
      JoinSplitAt(parts, |parts| - 2, '.');
      assert n.sub + "." + n.base == CHALLENGE_LABEL + "." + (Join(parts[..|parts| - 2], '.') + "." + n.base);
    } else {
      assert parts[|parts| - 2..] == parts;
    }
  }

  /**
   * The base domain is exactly the last two labels, and the challenge name is
   * the `_acme-challenge` label followed by the remaining leading labels.
   */
  lemma ChallengeNameLabels(domain: string)
    requires ChallengeName(domain).Some?
    ensures var n := ChallengeName(domain).value; var parts := Labels(domain);
      Split(n.base, '.') == parts[|parts| - 2..] &&
      Split(n.sub, '.') == [CHALLENGE_LABEL] + parts[..|parts| - 2]
  {
    var parts := Labels(domain);
    var n := ChallengeName(domain).value;
    var tail := parts[|parts| - 2..];
    assert n.base == Join(tail, '.');
    SplitJoin(tail, '.');
    var lead := [CHALLENGE_LABEL] + parts[..|parts| - 2];
    LabelsWithoutDots(parts[..|parts| - 2]);
    SplitJoin(lead, '.');
    if |parts| > 2 {
      assert lead[1..] == parts[..|parts| - 2];
      assert Join(lead, '.') == n.sub;
    } else {
      assert lead == [CHALLENGE_LABEL];
    }
  }

  /** The challenge label followed by dot-free labels is a list of dot-free labels. */
  lemma LabelsWithoutDots(labels: seq<string>)
    requires forall i :: 0 <= i < |labels| ==> '.' !in labels[i]
    ensures var lead := [CHALLENGE_LABEL] + labels; forall i :: 0 <= i < |lead| ==> '.' !in lead[i]
  {
    var lead := [CHALLENGE_LABEL] + labels;
    assert '.' !in CHALLENGE_LABEL;
    forall i | 1 <= i < |lead| ensures '.' !in lead[i] {
      assert lead[i] == labels[i - 1];
    }
  }

  /** Different texts stay different behind a common prefix. */
  lemma PrefixKeepsDifference(p: string, x: string, y: string)
    requires x != y
    ensures p + x != p + y
  {
    assert (p + x)[|p|..] == x && (p + y)[|p|..] == y;
  }

  /** Two challenge names under one base domain are kept under different keys. */
  lemma KeyForSeparatesNames(n1: RecordName, n2: RecordName)
    requires n1.base == n2.base && n1.sub != n2.sub
    ensures KeyFor(n1) != KeyFor(n2)
  {
  }

  /**
   * Two domains that differ once trailing dots are removed never share a key:
   * under one base domain their challenge names differ.
   */
  lemma DistinctDomainsDistinctKeys(d1: string, d2: string)
    requires ChallengeName(d1).Some? && ChallengeName(d2).Some?
    requires RStrip(d1, '.') != RStrip(d2, '.')
    requires ChallengeName(d1).value.base == ChallengeName(d2).value.base
    ensures KeyFor(ChallengeName(d1).value) != KeyFor(ChallengeName(d2).value)
  {
    ChallengeNameIsDomainName(d1);
    ChallengeNameIsDomainName(d2);
    var n1 := ChallengeName(d1).value;
    var n2 := ChallengeName(d2).value;
    PrefixKeepsDifference(CHALLENGE_LABEL + ".", RStrip(d1, '.'), RStrip(d2, '.'));
    KeyForSeparatesNames(n1, n2);
  }

  /** Set and delete derive the same key, so a delete after a successful set removes that entry. */
  lemma DeleteAfterSet(records: map<string, TxtRecord>, domain: string, challenge: string, ttl: int)
    requires SetEffect(records, domain, challenge, ttl, None).success
    ensures var afterSet := SetEffect(records, domain, challenge, ttl, None).records;
      var e := DeleteEffect(afterSet, domain, None);
      e.success && e.message == "Record deleted" && e.records == records - {KeyFor(ChallengeName(domain).value)}
  {
    var key := KeyFor(ChallengeName(domain).value);
    var afterSet := records[key := TxtRecord(challenge, ttl)];
    assert SetEffect(records, domain, challenge, ttl, None).records == afterSet;
    assert DeleteEffect(afterSet, domain, None) == Effect(afterSet - {key}, true, "Record deleted");
    assert afterSet - {key} == records - {key};
  }

  /** Deleting twice leaves what deleting once left, and the second delete still reports success. */
  lemma DeleteIdempotent(records: map<string, TxtRecord>, domain: string)
    requires ChallengeName(domain).Some?
    ensures var once := DeleteEffect(records, domain, None);
      var twice := DeleteEffect(once.records, domain, None);
      twice.records == once.records && twice.success && twice.message == "Record not found (already deleted)"
  {
    var once := DeleteEffect(records, domain, None);
    assert KeyFor(ChallengeName(domain).value) !in once.records;
  }

  /** A legacy request is never refused for its action, and the set endpoint never deletes. */
  lemma LegacyDispatch(data: Option<map<string, string>>)
    ensures ParseUpdate(ForceAction(data, "set")).Run? ==> ParseUpdate(ForceAction(data, "set")).cmd.SetRecord?
    ensures ParseUpdate(ForceAction(data, "delete")).Run? ==> ParseUpdate(ForceAction(data, "delete")).cmd.DeleteRecord?
    ensures data.Some? && Given(data.value, "domain") ==> ParseUpdate(ForceAction(data, "delete")).Run?
  {
  }

  /** The webhook and the etcd keyspace it writes. */
  class EtcdWebhook {
    var records: map<string, TxtRecord>
    const ttl: int

    constructor (ttl: int, records: map<string, TxtRecord>)
      ensures this.ttl == ttl && this.records == records
    {
      this.ttl := ttl;
      this.records := records;
    }

    /** `set_txt_record`: put the challenge under the domain's key. */
    method SetTxtRecord(domain: string, challenge: string, fault: Option<string>) returns (success: bool, message: string)
      modifies this
      ensures Effect(records, success, message) == SetEffect(old(records), domain, challenge, ttl, fault)
    {
      var name := ChallengeName(domain);
      if name.None? {
        return false, "Invalid domain format";
      }
      var key := KeyFor(name.value);
      if fault.Some? {
        return false, fault.value;
      }
      records := records[key := TxtRecord(challenge, ttl)];
      return true, "Record created";
    }

    /** `delete_txt_record`: delete the domain's key, succeeding whether or not it was there. */
    method DeleteTxtRecord(domain: string, fault: Option<string>) returns (success: bool, message: string)
      modifies this
      ensures Effect(records, success, message) == DeleteEffect(old(records), domain, fault)
    {
      var name := ChallengeName(domain);
      if name.None? {
        return false, "Invalid domain format";
      }
      var key := KeyFor(name.value);
      if fault.Some? {
        return false, fault.value;
      }
      var deleted := key in records;
      records := records - {key};
      if deleted {
        return true, "Record deleted";
      } else {
        return true, "Record not found (already deleted)";
      }
    }

    /** `update_txt_record`: validate the JSON body, then set or delete. */
    method UpdateTxtRecord(data: Option<map<string, string>>, fault: Option<string>) returns (reply: Reply)
      modifies this
      ensures match ParseUpdate(data)
        case Reject(error) => reply == Reply(400, ErrorBody(error)) && records == old(records)
        case Run(SetRecord(d, c)) =>
          var e := SetEffect(old(records), d, c, ttl, fault);
          records == e.records && reply == OutcomeReply(e)
        case Run(DeleteRecord(d)) =>
          var e := DeleteEffect(old(records), d, fault);
          records == e.records && reply == OutcomeReply(e)
    {
      var parsed := ParseUpdate(data);
      match parsed
      case Reject(error) =>
        reply := Reply(400, ErrorBody(error));
      case Run(SetRecord(d, c)) =>
        var success, message := SetTxtRecord(d, c, fault);
        reply := OutcomeReply(Effect(records, success, message));
      case Run(DeleteRecord(d)) =>
        var success, message := DeleteTxtRecord(d, fault);
        reply := OutcomeReply(Effect(records, success, message));
    }

    /** The legacy `/set-txt` endpoint. */
    method SetTxt(data: Option<map<string, string>>, fault: Option<string>) returns (reply: Reply)
      modifies this
      ensures match ParseUpdate(ForceAction(data, "set"))
        case Reject(error) => reply == Reply(400, ErrorBody(error)) && records == old(records)
        case Run(cmd) =>
          var e := SetEffect(old(records), cmd.domain, cmd.challenge, ttl, fault);
          records == e.records && reply == OutcomeReply(e)
    {
      LegacyDispatch(data);
      reply := UpdateTxtRecord(ForceAction(data, "set"), fault);
    }

    /** The legacy `/delete-txt` endpoint. */
    method DeleteTxt(data: Option<map<string, string>>, fault: Option<string>) returns (reply: Reply)
      modifies this
      ensures match ParseUpdate(ForceAction(data, "delete"))
        case Reject(error) => reply == Reply(400, ErrorBody(error)) && records == old(records)
        case Run(cmd) =>
          var e := DeleteEffect(old(records), cmd.domain, fault);
          records == e.records && reply == OutcomeReply(e)
    {
      LegacyDispatch(data);
      reply := UpdateTxtRecord(ForceAction(data, "delete"), fault);
    }
  }
}
