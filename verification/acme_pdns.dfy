/**
 * The ACME DNS-01 webhook for PowerDNS: it finds the zone a domain belongs to
 * (longest existing suffix first), works out the record name relative to that
 * zone, and sends a REPLACE rrset for the TXT record.
 *
 * The PowerDNS HTTP API is two parameters: `zoneExists` answers the GET on a
 * zone (status 200 or not), and `patch` is the PATCH call, giving the status
 * code and the response text for a zone and a payload.
 */
module AcmePdns {
  import opened Optional
  import opened Strings
  import opened AcmeChallenge

  /** The JSON body of `/set-txt` and `/del-txt`; absent fields are None. */
  datatype Request = Request(domain: Option<string>, name: Option<string>,
                             values: Option<seq<string>>, value: Option<string>)

  datatype Record = Record(content: string, disabled: bool)

  datatype Rrset = Rrset(name: string, rtype: string, ttl: int, changetype: string, records: seq<Record>)

  /** The body of the PATCH on a zone. */
  datatype Payload = Payload(rrsets: seq<Rrset>)

  /** What PowerDNS answered to the PATCH. */
  datatype PatchResult = PatchResult(code: int, text: string)

  /** An HTTP response of the webhook: the status code and the JSON body. */
  datatype Reply = Reply(status: int, body: Body)

  datatype Body = ErrorBody(error: string) | PatchBody(ok: bool, zone: string, name: string, code: int, text: string)

  /** The labels of a domain once leading and trailing dots are gone. */
  function DomainLabels(domain: string): seq<string>
  {
    Split(Strip(domain, '.'), '.')
  }

  /** The zone tried at index `i`: the labels from `i` on, with a trailing dot. */
  function Candidate(parts: seq<string>, i: nat): string
    requires i < |parts|
  {
    Join(parts[i..], '.') + "."
  }

  /** The zone used when none of the candidates exists: the last two labels (or the only one). */
  function Fallback(parts: seq<string>): string
    requires |parts| >= 1
  {
    Join(parts[if |parts| >= 2 then |parts| - 2 else 0..], '.') + "."
  }

  /** The zone the search returns once the candidates before `i` were found missing. */
  function ZoneFrom(parts: seq<string>, i: nat, zoneExists: string -> bool): string
    requires |parts| >= 1 && i <= |parts| - 1
    decreases |parts| - 1 - i
  {
    if i == |parts| - 1 then Fallback(parts)
    else if zoneExists(Candidate(parts, i)) then Candidate(parts, i)
    else ZoneFrom(parts, i + 1, zoneExists)
  }

  /** The zone `zone_name` returns for a domain. */
  function ZoneOf(domain: string, zoneExists: string -> bool): string
  {
    ZoneFrom(DomainLabels(domain), 0, zoneExists)
  }

  /** `zone_name`: try the suffixes of at least two labels, longest first, and fall back to the last two labels. */
  method ZoneName(domain: string, zoneExists: string -> bool) returns (zone: string)
    ensures zone == ZoneOf(domain, zoneExists)
  {
    var parts := DomainLabels(domain);
    var i := 0;
    while i < |parts| - 1
      invariant 0 <= i <= |parts| - 1
      invariant ZoneFrom(parts, i, zoneExists) == ZoneFrom(parts, 0, zoneExists)
    {
      var z := Candidate(parts, i);
      if zoneExists(z) {
        return z;
      }
      i := i + 1;
    }
    return Fallback(parts);
  }

  /** Python's `s.endswith(".")`. */
  predicate EndsWithDot(s: string)
  {
    |s| > 0 && s[|s| - 1] == '.'
  }

  /** The name in the rrset: `name.zone`, unless `name` already ends with a dot. */
  function RrsetName(name: string, zone: string): (r: string)
    ensures EndsWithDot(zone) ==> EndsWithDot(r)
  {
    if EndsWithDot(name) then name else name + "." + zone
  }

  /** `patch_rrset`'s payload: one REPLACE rrset holding one enabled record per value, in order. */
  function PatchPayload(zone: string, name: string, rtype: string, values: seq<string>, ttl: int): (p: Payload)
    ensures |p.rrsets| == 1
    ensures p.rrsets[0].changetype == "REPLACE" && p.rrsets[0].rtype == rtype && p.rrsets[0].ttl == ttl
    ensures p.rrsets[0].name == RrsetName(name, zone)
    ensures |p.rrsets[0].records| == |values|
    ensures forall i :: 0 <= i < |values| ==> p.rrsets[0].records[i] == Record(values[i], false)
  {
    Payload([Rrset(RrsetName(name, zone), rtype, ttl, "REPLACE",
                   seq(|values|, i requires 0 <= i < |values| => Record(values[i], false)))])
  }

  /** `name` from the body, or `_acme-challenge.` followed by the domain (Python's text for a missing one). */
  function RecordNameOf(req: Request): string
  {
    if req.name.Some? && req.name.value != "" then req.name.value
    else CHALLENGE_LABEL + "." + (if req.domain.Some? then req.domain.value else "None")
  }

  /** The domain field is present and not empty. */
  predicate HasDomain(req: Request)
  {
    req.domain.Some? && req.domain.value != ""
  }

  /** `values` when it is a non-empty list, else `[value]`; None when any of them is missing or empty. */
  function ChallengeValues(req: Request): (r: Option<seq<string>>)
    ensures r.Some? ==> |r.value| >= 1 && forall i :: 0 <= i < |r.value| ==> r.value[i] != ""
    ensures req.values.Some? && |req.values.value| > 0 ==>
      (r.Some? <==> forall i :: 0 <= i < |req.values.value| ==> req.values.value[i] != "") &&
      (r.Some? ==> r.value == req.values.value)
    ensures !(req.values.Some? && |req.values.value| > 0) ==>
      (r.Some? <==> req.value.Some? && req.value.value != "") &&
      (r.Some? ==> r.value == [req.value.value])
  {
    if req.values.Some? && |req.values.value| > 0 then
      if forall i :: 0 <= i < |req.values.value| ==> req.values.value[i] != "" then Some(req.values.value) else None
    else if req.value.Some? && req.value.value != "" then Some([req.value.value])
    else None
  }

  /** The name below the zone: every `.zone` removed from the name, then trailing dots stripped. */
  function Sub(name: string, zone: string): (sub: string)
    ensures !EndsWithDot(sub)
  {
    RStrip(RemoveAll(name, "." + zone), '.')
  }

  /** A TXT value inside double quotes. */
  function Quote(v: string): (q: string)
    ensures |q| == |v| + 2 && q[0] == '"' && q[|q| - 1] == '"' && q[1..|q| - 1] == v
  {
    "\"" + v + "\""
  }

  function QuoteAll(values: seq<string>): (q: seq<string>)
    ensures |q| == |values| && forall i :: 0 <= i < |values| ==> q[i] == Quote(values[i])
  {
    seq(|values|, i requires 0 <= i < |values| => Quote(values[i]))
  }

  /** The reply once PowerDNS answered: `ok` and status 200 for 200 or 204, status 500 otherwise. */
  function PatchReply(zone: string, name: string, res: PatchResult): (r: Reply)
    ensures r.body.PatchBody? && r.body.zone == zone && r.body.name == name
    ensures r.body.code == res.code && r.body.text == res.text
    ensures r.body.ok <==> res.code == 200 || res.code == 204
    ensures r.status == (if r.body.ok then 200 else 500)
  {
    var ok := res.code == 200 || res.code == 204;
    Reply(if ok then 200 else 500, PatchBody(ok, zone, name, res.code, res.text))
  }

  /** `set_txt`: replace the TXT rrset of the record with the quoted values. */
  method SetTxt(req: Request, zoneExists: string -> bool, ttl: int,
                patch: (string, Payload) -> PatchResult) returns (reply: Reply)
    ensures !HasDomain(req) || ChallengeValues(req).None? ==>
      reply == Reply(400, ErrorBody("domain and value(s) required"))
    ensures HasDomain(req) && ChallengeValues(req).Some? ==>
      var zone := ZoneOf(req.domain.value, zoneExists);
      var name := RecordNameOf(req);
      reply == PatchReply(zone, name,
        patch(zone, PatchPayload(zone, Sub(name, zone), "TXT", QuoteAll(ChallengeValues(req).value), ttl)))
  {
    var name := RecordNameOf(req);
    var values := ChallengeValues(req);
    if !HasDomain(req) || values.None? {
      return Reply(400, ErrorBody("domain and value(s) required"));
    }
    var zone := ZoneName(req.domain.value, zoneExists);
    var sub := Sub(name, zone);
    var res := patch(zone, PatchPayload(zone, sub, "TXT", QuoteAll(values.value), ttl));
    reply := PatchReply(zone, name, res);
  }

  /** `del_txt`: replace the TXT rrset of the record with no records. */
  method DelTxt(req: Request, zoneExists: string -> bool, ttl: int,
                patch: (string, Payload) -> PatchResult) returns (reply: Reply)
    ensures !HasDomain(req) ==> reply == Reply(400, ErrorBody("domain required"))
    ensures HasDomain(req) ==>
      var zone := ZoneOf(req.domain.value, zoneExists);
      var name := RecordNameOf(req);
      reply == PatchReply(zone, name, patch(zone, PatchPayload(zone, Sub(name, zone), "TXT", [], ttl)))
  {
    var name := RecordNameOf(req);
    if !HasDomain(req) {
      return Reply(400, ErrorBody("domain required"));
    }
    var zone := ZoneName(req.domain.value, zoneExists);
    var sub := Sub(name, zone);
    var res := patch(zone, PatchPayload(zone, sub, "TXT", [], ttl));
    reply := PatchReply(zone, name, res);
  }

  /** The search returns the first existing candidate: every one tried before it was missing. */
  lemma {:induction false} ZoneFromFirstExisting(parts: seq<string>, i: nat, k: nat, zoneExists: string -> bool)
    requires |parts| >= 1 && i <= k < |parts| - 1
    requires zoneExists(Candidate(parts, k))
    requires forall j :: i <= j < k ==> !zoneExists(Candidate(parts, j))
    ensures ZoneFrom(parts, i, zoneExists) == Candidate(parts, k)
    decreases k - i
  {
    if i < k {
      ZoneFromFirstExisting(parts, i + 1, k, zoneExists);
    }
  }

  /** When no candidate exists the search falls back to the last two labels. */
  lemma {:induction false} ZoneFromFallback(parts: seq<string>, i: nat, zoneExists: string -> bool)
    requires |parts| >= 1 && i <= |parts| - 1
    requires forall j :: i <= j < |parts| - 1 ==> !zoneExists(Candidate(parts, j))
    ensures ZoneFrom(parts, i, zoneExists) == Fallback(parts)
    decreases |parts| - 1 - i
  {
    if i < |parts| - 1 {
      ZoneFromFallback(parts, i + 1, zoneExists);
    }
  }

  /** What the search returns is either an existing candidate or the fallback. */
  lemma {:induction false} ZoneFromCases(parts: seq<string>, i: nat, zoneExists: string -> bool)
    requires |parts| >= 1 && i <= |parts| - 1
    ensures var z := ZoneFrom(parts, i, zoneExists);
      z == Fallback(parts) || exists k :: i <= k < |parts| - 1 && z == Candidate(parts, k) && zoneExists(z)
    decreases |parts| - 1 - i
  {
    if i < |parts| - 1 && !zoneExists(Candidate(parts, i)) {
      ZoneFromCases(parts, i + 1, zoneExists);
    }
  }

  /**
   * The zone is the first existing suffix of at least two labels, tried longest
   * first; when none exists it is the last two labels.
   */
  lemma ZoneOfSearch(domain: string, zoneExists: string -> bool, k: nat)
    requires k < |DomainLabels(domain)| - 1
    requires zoneExists(Candidate(DomainLabels(domain), k))
    requires forall j :: 0 <= j < k ==> !zoneExists(Candidate(DomainLabels(domain), j))
    ensures ZoneOf(domain, zoneExists) == Candidate(DomainLabels(domain), k)
  {
    ZoneFromFirstExisting(DomainLabels(domain), 0, k, zoneExists);
  }

  lemma ZoneOfFallback(domain: string, zoneExists: string -> bool)
    requires forall j :: 0 <= j < |DomainLabels(domain)| - 1 ==> !zoneExists(Candidate(DomainLabels(domain), j))
    ensures ZoneOf(domain, zoneExists) == Fallback(DomainLabels(domain))
  {
    ZoneFromFallback(DomainLabels(domain), 0, zoneExists);
  }

  /** Every candidate has at least two labels, and they are the domain's labels from its index on. */
  lemma CandidateLabels(parts: seq<string>, i: nat)
    requires i < |parts| - 1
    requires forall j :: 0 <= j < |parts| ==> '.' !in parts[j]
    ensures var z := Candidate(parts, i); Split(z[..|z| - 1], '.') == parts[i..] && |parts[i..]| >= 2
  {
    var z := Candidate(parts, i);
    assert z[..|z| - 1] == Join(parts[i..], '.');
    SplitJoin(parts[i..], '.');
  }

  /**
   * Every zone ends with a dot, and without that dot it is a suffix of the
   * domain with its leading and trailing dots removed.
   */
  lemma ZoneIsDomainSuffix(domain: string, zoneExists: string -> bool)
    ensures var z := ZoneOf(domain, zoneExists); var d := Strip(domain, '.');
      EndsWithDot(z) && |z| - 1 <= |d| && z[..|z| - 1] == d[|d| - (|z| - 1)..]
  {
    var d := Strip(domain, '.');
    JoinSplit(d, '.');
    ZoneFromSuffix(DomainLabels(domain), 0, zoneExists, d);
  }

  /** `z` ends with a dot, and without it is a suffix of `d`. */
  predicate DottedSuffix(z: string, d: string)
  {
    EndsWithDot(z) && |z| - 1 <= |d| && z[..|z| - 1] == d[|d| - (|z| - 1)..]
  }

  /** Whatever the search returns from index `i` on is a dotted suffix of the joined labels. */
  lemma {:induction false} ZoneFromSuffix(parts: seq<string>, i: nat, zoneExists: string -> bool, d: string)
    requires |parts| >= 1 && i <= |parts| - 1 && d == Join(parts, '.')
    ensures DottedSuffix(ZoneFrom(parts, i, zoneExists), d)
    decreases |parts| - 1 - i
  {
    if i == |parts| - 1 {
      JoinedSuffix(parts, if |parts| >= 2 then |parts| - 2 else 0, d, Fallback(parts));
    } else if zoneExists(Candidate(parts, i)) {
      JoinedSuffix(parts, i, d, Candidate(parts, i));
    } else {
      ZoneFromSuffix(parts, i + 1, zoneExists, d);
    }
  }

  /** The labels from `k` on, joined and followed by a dot, are a suffix of all the labels joined. */
  lemma JoinedSuffix(parts: seq<string>, k: nat, d: string, z: string)
    requires k < |parts| && d == Join(parts, '.') && z == Join(parts[k..], '.') + "."
    ensures DottedSuffix(z, d)
  {
    JoinSuffix(parts, k, '.');
    assert z[..|z| - 1] == Join(parts[k..], '.');
  }

  /** Since `sub` never ends with a dot, the rrset is always named `sub.zone`. */
  lemma RrsetNameOfSub(name: string, zone: string)
    ensures RrsetName(Sub(name, zone), zone) == Sub(name, zone) + "." + zone
  {
  }

  /**
   * A name in which `.zone` never occurs and that has no trailing dot is its
   * own `sub`, so the rrset name is that name followed by `.zone`.
   */
  lemma SubKeepsName(name: string, zone: string)
    requires forall i :: 0 <= i <= |name| ==> !OccursAt(name, "." + zone, i)
    requires !EndsWithDot(name)
    ensures Sub(name, zone) == name
    ensures RrsetName(Sub(name, zone), zone) == name + "." + zone
  {
    RemoveAllAbsent(name, "." + zone);
  }

  /**
   * A fully qualified name `p.zone` in which `.zone` starts nowhere before its
   * end has `p` as its sub-name, so the rrset is named by that same name.
   */
  lemma SubOfQualifiedName(p: string, zone: string)
    requires !EndsWithDot(p)
    requires forall i :: 0 <= i < |p| ==> !OccursAt(p + "." + zone, "." + zone, i)
    ensures Sub(p + "." + zone, zone) == p
    ensures RrsetName(Sub(p + "." + zone, zone), zone) == p + "." + zone
  {
    assert p + "." + zone == p + ("." + zone);
    RemoveAllSuffix(p, "." + zone);
  }

  /** The record of `www.example.com` sent with its fully qualified name, in zone `example.com.`. */
  lemma SubOfWwwChallenge()
    ensures Sub("_acme-challenge.www.example.com.", "example.com.") == "_acme-challenge.www"
  {
    var p := "_acme-challenge.www";
    assert p + "." + "example.com." == "_acme-challenge.www.example.com.";
    forall i | 0 <= i < |p|
      ensures !OccursAt(p + "." + "example.com.", "." + "example.com.", i)
    {
      var s := p + "." + "example.com.";
      if i != 15 {
        assert s[i] != '.';
      } else {
        assert s[i + 4] != ("." + "example.com.")[4];
      }
    }
    SubOfQualifiedName(p, "example.com.");
  }

  /**
   * Every `.zone` is removed, not only a trailing one: in zone `example.com.`,
   * the name `x.example.com.y` becomes `xy`.
   */
  lemma SubOfMiddleOccurrence()
    ensures Sub("x.example.com.y", "example.com.") == "xy"
  {
    var s := "x" + ("." + "example.com.") + "y";
    assert s == "x.example.com.y";
    forall i | 0 <= i < 1 ensures !OccursAt(s, "." + "example.com.", i) {
      assert s[i] != '.';
    }
    RemoveAllStep("x", "." + "example.com.", "y");
    assert RemoveAll("y", "." + "example.com.") == "y";
    assert "x" + "y" == "xy";
  }

  /**
   * A default name built from a domain without a trailing dot never ends with
   * a dot while the zone does, so a trailing `.zone` is never there to remove:
   * unless `.zone` occurs inside the name,
   * the zone's text stays in the record name and is appended again.
   * `www.example.com` in zone `example.com.` is sent as
   * `_acme-challenge.www.example.com.example.com.`.
   */
  lemma DefaultNameBelowApex()
    ensures var name := CHALLENGE_LABEL + "." + "www.example.com";
      Sub(name, "example.com.") == name &&
      RrsetName(Sub(name, "example.com."), "example.com.") == "_acme-challenge.www.example.com.example.com."
  {
    var name := CHALLENGE_LABEL + "." + "www.example.com";
    var pat := "." + "example.com.";
    assert name == "_acme-challenge.www.example.com";
    forall i | 0 <= i <= |name|
      ensures !OccursAt(name, pat, i)
    {
      if i + |pat| > |name| {
      } else if i != 15 {
        assert name[i] != '.';
      } else {
        assert name[i + 1] != pat[1];
      }
    }
    SubKeepsName(name, "example.com.");
  }

  /**
   * The same for every domain written without a trailing dot that is its own
   * zone: `d` in zone `d.` is sent as `_acme-challenge.d.d.`, e.g.
   * `_acme-challenge.example.com.example.com.`.
   */
  lemma DefaultNameAtApex(domain: string)
    requires domain != "" && !EndsWithDot(domain)
    ensures var name := CHALLENGE_LABEL + "." + domain;
      Sub(name, domain + ".") == name &&
      RrsetName(Sub(name, domain + "."), domain + ".") == name + "." + domain + "."
  {
    var name := CHALLENGE_LABEL + "." + domain;
    assert '.' !in CHALLENGE_LABEL;
    NoOccurrenceAfterFreePrefix(CHALLENGE_LABEL, "." + domain, "." + domain + ".", '.');
    assert CHALLENGE_LABEL + ("." + domain) == name;
    assert name[|name| - 1] == domain[|domain| - 1];
    assert "." + (domain + ".") == "." + domain + ".";
    SubKeepsName(name, domain + ".");
  }

  /**
   * A domain written with its trailing dot that is its own zone comes out
   * right: `d.` in zone `d.` gives the default name `_acme-challenge.d.`, whose
   * sub-name is `_acme-challenge`, so the rrset is `_acme-challenge.d.`.
   */
  lemma DefaultNameAtDottedApex(zone: string)
    ensures var name := CHALLENGE_LABEL + "." + zone;
      Sub(name, zone) == CHALLENGE_LABEL && RrsetName(Sub(name, zone), zone) == name
  {
    var s := CHALLENGE_LABEL + "." + zone;
    forall i | 0 <= i < |CHALLENGE_LABEL|
      ensures !OccursAt(s, "." + zone, i)
    {
      assert s[i] == CHALLENGE_LABEL[i] != '.';
    }
    SubOfQualifiedName(CHALLENGE_LABEL, zone);
  }

  /** A delete sends the same REPLACE rrset with no records, so it empties the rrset. */
  lemma DelPayloadIsEmpty(zone: string, name: string, ttl: int)
    ensures var p := PatchPayload(zone, Sub(name, zone), "TXT", [], ttl);
      p.rrsets[0].records == [] && p.rrsets[0].name == Sub(name, zone) + "." + zone
  {
  }
}
