# Infrastructure helpers: ACME DNS webhooks and two page scripts

This project models four small programs from one infrastructure repository in
Dafny and proves properties about them:

- **The ACME webhook for CoreDNS with an etcd backend** (`acme_etcd.dfy`).
  `/update-txt-record` takes the JSON body `{domain, challenge, action}`, works
  out the etcd key `/coredns/<base domain>/<_acme-challenge[.leading labels]>/TXT`,
  and either puts `{"text": challenge, "ttl": DNS_TTL}` there or deletes the key.
  `/set-txt` and `/delete-txt` are the legacy endpoints: they force the action
  and then dispatch in the same way. The etcd keyspace is the `records` map of
  the class `EtcdWebhook`. An exception raised by the etcd client is a `fault`
  parameter that carries its message.
- **The ACME webhook for PowerDNS** (`acme_pdns.dfy`). `zone_name` tries the
  domain's suffixes of at least two labels, longest first, and picks the first
  zone PowerDNS knows. If none is known it uses the last two labels. `set_txt`
  and `del_txt` then send one `REPLACE` rrset for the TXT record: the quoted
  values, or no records at all. The two PowerDNS HTTP calls are parameters.
  `zoneExists` says whether the zone lookup answered 200. `patch` gives the
  status and text of the PATCH.
- **The diagram zoom of the documentation site** (`mermaid_zoom.dfy`). A
  delayed pass marks every `.mermaid` element. Each rendered one gets a click
  handler that shows an enlarged clone of its SVG in a modal overlay, and
  hover handlers that add or remove a hint. The overlay closes on a click on
  its background or its close button, or on Escape. The overlay, the page's
  scroll lock and what the pass left on the diagrams make up the class
  `ZoomOverlay`.
- **The marketing site's script** (`byrne_site.dfy`), which covers:
  - the phone-number formatter `(ddd) ddd-dddd`;
  - the scroll handler that highlights the nav link of the last section in view;
  - the mobile menu's `active` flag (class `MobileMenu`);
  - the navbar shadow threshold;
  - where a click on an in-page anchor scrolls to.

Two support modules are shared by these models:

- `strings.dfy` holds the Python string operations the webhooks use
  (`split`, `join`, `rstrip`, `strip`, and `replace` with an empty
  replacement) and their round trips.
- `optional.dfy` holds `Option`, and `acme_challenge.dfy` the challenge label both webhooks use.

## Model

| member | source | states |
|---|---|---|
| Strings.Split | acme-webhook-etcd/app.py:28 | `str.split` on one character: the result is never empty, and no piece holds the separator |
| Strings.Join | acme-webhook-etcd/app.py:30 | `sep.join(parts)`; what it gives is stated by the round trips `JoinSplit` and `SplitJoin` |
| Strings.RStrip | acme-webhook-etcd/app.py:25 | `str.rstrip`: the result is a prefix of the input, it does not end with the character, and everything removed was that character |
| Strings.LStrip | acme-webhook/app.py:16 | the leading half of `str.strip`: the result is a suffix of the input, it does not start with the character, and everything removed was that character |
| Strings.Strip | acme-webhook/app.py:16 | `str.strip`: neither end of the result is the stripped character |
| Strings.SliceAt | acme-webhook/app.py:16 | (a predicate: `r` occurs in `s` starting at index `k`) |
| Strings.PrefixOfSuffix | acme-webhook/app.py:16 | a prefix of a suffix of a string is a slice of it, and what followed it in the suffix follows it in the string |
| Strings.StripIsSlice | acme-webhook/app.py:16 | what `strip` keeps is a contiguous slice of the input, and everything on either side of it is the stripped character |
| Strings.RemoveAll | acme-webhook/app.py:48 | `str.replace(pat, "")`, occurrences taken left to right without overlap: the result is never longer than the input (what it removes is stated by `RemoveAllStep`, `RemoveAllSuffix` and `RemoveAllAbsent`) |
| Strings.RemoveAllStep | acme-webhook/app.py:48 | a text `a`, then the pattern, then `b`, where the pattern starts nowhere inside `a`, loses that first occurrence and keeps `a`; the removal continues in `b` |
| Strings.SplitPrefix | acme-webhook-etcd/app.py:28 | splitting a dot-free piece followed by more text puts the piece at the front of the first part |
| Strings.SplitCount | acme-webhook-etcd/app.py:28-29 | a string splits into two or more parts if and only if it holds the separator |
| Strings.JoinSplit | acme-webhook-etcd/app.py:28-30 | `sep.join(s.split(sep)) == s` |
| Strings.SplitJoin | acme-webhook/app.py:16-18 | `sep.join(parts).split(sep) == parts` when no part holds the separator |
| Strings.JoinSplitAt | acme-webhook-etcd/app.py:30-33 | joining `parts[:k]`, the separator, then `parts[k:]` gives the join of all the parts |
| Strings.JoinSuffix | acme-webhook/app.py:18 | the join of `parts[k:]` is a suffix of the join of all the parts |
| Strings.RemoveAllAbsent | acme-webhook/app.py:48 | `replace` with no occurrence of the pattern leaves the string as it is |
| Strings.RemoveAllSuffix | acme-webhook/app.py:48 | a text followed by the pattern, where the pattern starts nowhere before the end, loses exactly that last occurrence |
| Strings.NoOccurrenceAfterFreePrefix | acme-webhook/app.py:48 | a pattern that starts with `c` cannot occur in `a + b` when `a` holds no `c` and `b` is shorter than the pattern |
| AcmeEtcd.Labels | acme-webhook-etcd/app.py:25-28 | the labels of the domain without its trailing dots: at least one, none holding a dot, and joined with dots they give back that domain |
| AcmeEtcd.ChallengeName | acme-webhook-etcd/app.py:28-35 | a base domain and challenge name exist if and only if there are two or more labels, and the challenge name starts with `_acme-challenge` (the rest is stated by `ChallengeNameLabels` and `ChallengeNameIsDomainName`) |
| AcmeEtcd.KeyFor | acme-webhook-etcd/app.py:39 | the key is `/coredns/<base>/`, then exactly the sub-name, then `/TXT` |
| AcmeEtcd.PrefixKeepsDifference | acme-webhook-etcd/app.py:33 | two different texts stay different after the same prefix |
| AcmeEtcd.KeyForSeparatesNames | acme-webhook-etcd/app.py:39 | two record names with the same base and different sub-names get different keys |
| AcmeEtcd.DistinctDomainsDistinctKeys | acme-webhook-etcd/app.py:25-39 | two domains that differ once trailing dots are removed and share a base domain never share a key |
| AcmeEtcd.Given | acme-webhook-etcd/app.py:119-124 | a JSON field counts as given when it is present and not the empty string (its use is stated by `ParseUpdate`) |
| AcmeEtcd.Action | acme-webhook-etcd/app.py:117 | the body's `action`, `set` when absent (its use is stated by `ParseUpdate`) |
| AcmeEtcd.SetEffect | acme-webhook-etcd/app.py:22-54 | `set_txt_record` succeeds if and only if the domain has two or more labels and etcd raises nothing. On success the key holds `{text: challenge, ttl}` and the message is "Record created"; otherwise the keyspace is unchanged. A domain of one label gives "Invalid domain format"; an etcd exception gives its own message |
| AcmeEtcd.DeleteEffect | acme-webhook-etcd/app.py:57-86 | `delete_txt_record` succeeds under the same condition and then removes the key. It reports "Record deleted" when the key was there and "Record not found (already deleted)" when it was not. On failure the keyspace is unchanged, with "Invalid domain format" for a domain of one label and the exception's own message otherwise |
| AcmeEtcd.ParseUpdate | acme-webhook-etcd/app.py:111-141 | the request runs if and only if it has a body, a non-empty domain, and either action `set` (the default) with a non-empty challenge or action `delete`. The command carries the body's domain and challenge. The refusals, in the order they are checked: no body or an empty one gives "No JSON data provided"; a missing or empty domain gives "Domain is required", whatever the action; `set` without a challenge gives "Challenge value is required for 'set' action"; any other action gives "Invalid action: " followed by the action |
| AcmeEtcd.OutcomeReply | acme-webhook-etcd/app.py:128-138 | status 200 ("success") if and only if the backend call succeeded, else 500 ("error"), with the call's message |
| AcmeEtcd.ForceAction | acme-webhook-etcd/app.py:147-149 | a non-empty body gets its `action` overwritten and keeps every other field as it was; a missing or empty body is passed on untouched |
| AcmeEtcd.ChallengeNameDefined | acme-webhook-etcd/app.py:25-35 | a domain is accepted if and only if it still holds a dot once its trailing dots are removed |
| AcmeEtcd.ChallengeNameIsDomainName | acme-webhook-etcd/app.py:28-39 | `sub + "." + base` is `_acme-challenge.` followed by the domain without its trailing dots |
| AcmeEtcd.ChallengeNameLabels | acme-webhook-etcd/app.py:28-33 | the base domain is exactly the last two labels, and the subdomain is `_acme-challenge` followed by the leading labels |
| AcmeEtcd.LabelsWithoutDots | acme-webhook-etcd/app.py:33 | putting `_acme-challenge` in front of dot-free labels keeps every label dot-free |
| AcmeEtcd.DeleteAfterSet | acme-webhook-etcd/app.py:57-80 | set and delete use the same key: deleting after a successful set reports "Record deleted" and removes exactly that key |
| AcmeEtcd.DeleteIdempotent | acme-webhook-etcd/app.py:75-83 | a second delete leaves the keyspace as the first left it and still succeeds, reporting "Record not found (already deleted)" |
| AcmeEtcd.LegacyDispatch | acme-webhook-etcd/app.py:144-159 | `/set-txt` only ever sets and `/delete-txt` only ever deletes. A delete is accepted whenever the body has a domain |
| AcmeEtcd.EtcdWebhook.constructor | acme-webhook-etcd/app.py:17-20 | the webhook starts with the given TTL and keyspace |
| AcmeEtcd.EtcdWebhook.SetTxtRecord | acme-webhook-etcd/app.py:22-54 | the new keyspace and the returned `(success, message)` are those of `SetEffect` |
| AcmeEtcd.EtcdWebhook.DeleteTxtRecord | acme-webhook-etcd/app.py:57-86 | the new keyspace and the returned `(success, message)` are those of `DeleteEffect` |
| AcmeEtcd.EtcdWebhook.UpdateTxtRecord | acme-webhook-etcd/app.py:100-141 | a rejected body gets a 400 with its message and leaves the keyspace alone. A set or delete command changes the keyspace as its effect says and answers with `OutcomeReply` |
| AcmeEtcd.EtcdWebhook.SetTxt | acme-webhook-etcd/app.py:144-150 | the legacy endpoint rejects as `update_txt_record` does, or runs a set |
| AcmeEtcd.EtcdWebhook.DeleteTxt | acme-webhook-etcd/app.py:153-159 | the legacy endpoint rejects as `update_txt_record` does, or runs a delete |
| AcmePdns.DomainLabels | acme-webhook/app.py:16 | the labels of the domain once its leading and trailing dots are stripped (stated through `CandidateLabels` and `ZoneIsDomainSuffix`) |
| AcmePdns.Candidate | acme-webhook/app.py:18 | the zone tried at index `i`: the labels from `i` on, joined with dots, plus a trailing dot (stated by `CandidateLabels`) |
| AcmePdns.Fallback | acme-webhook/app.py:23 | the last two labels, or the only one, plus a dot (stated by `ZoneFromFallback` and `JoinedSuffix`) |
| AcmePdns.ZoneFrom | acme-webhook/app.py:17-23 | the recursive reference search: each candidate from index `i` on, else the fallback (its properties are the `ZoneFrom...` lemmas) |
| AcmePdns.ZoneOf | acme-webhook/app.py:14-23 | the zone `zone_name` returns, as the search from index 0 (stated by `ZoneOfSearch`, `ZoneOfFallback` and `ZoneIsDomainSuffix`) |
| AcmePdns.RecordNameOf | acme-webhook/app.py:43 | the body's `name` when given, else `_acme-challenge.` and the domain (used in the contracts of `SetTxt` and `DelTxt`) |
| AcmePdns.HasDomain | acme-webhook/app.py:57 | the domain field is present and not empty (used in the contracts of `SetTxt` and `DelTxt`) |
| AcmePdns.ZoneName | acme-webhook/app.py:14-23 | the loop returns what the recursive zone search `ZoneOf` defines |
| AcmePdns.ZoneFromFirstExisting | acme-webhook/app.py:17-22 | the search returns the first candidate that exists, when every earlier one was missing |
| AcmePdns.ZoneFromFallback | acme-webhook/app.py:17-23 | when no candidate exists, the search returns the last two labels plus a dot |
| AcmePdns.ZoneFromCases | acme-webhook/app.py:17-23 | the search's result is either the fallback or a candidate that exists |
| AcmePdns.ZoneOfSearch | acme-webhook/app.py:14-22 | `zone_name` returns the longest existing suffix of at least two labels |
| AcmePdns.ZoneOfFallback | acme-webhook/app.py:14-23 | `zone_name` returns the last two labels when no suffix exists as a zone |
| AcmePdns.CandidateLabels | acme-webhook/app.py:16-18 | every candidate has at least two labels, and they are the domain's labels from that index on |
| AcmePdns.ZoneIsDomainSuffix | acme-webhook/app.py:14-23 | every zone ends with a dot; without that dot it is a suffix of the domain stripped of dots |
| AcmePdns.DottedSuffix | acme-webhook/app.py:18-23 | (a predicate: `z` ends with a dot and, without it, is a suffix of `d`) |
| AcmePdns.ZoneFromSuffix | acme-webhook/app.py:17-23 | whatever the search returns from any index on is a dotted suffix of the joined labels |
| AcmePdns.JoinedSuffix | acme-webhook/app.py:18-23 | a candidate or the fallback, without its dot, is a suffix of the joined labels |
| AcmePdns.RrsetName | acme-webhook/app.py:28 | with a zone that ends in a dot, the rrset name always ends in a dot |
| AcmePdns.PatchPayload | acme-webhook/app.py:25-34 | the payload is one `REPLACE` rrset of the given type and TTL, named as `patch_rrset` names it, with one enabled record per value, in order |
| AcmePdns.ChallengeValues | acme-webhook/app.py:44-45 | `values` is used when it is a non-empty list, otherwise `[value]`. The request is refused if and only if one of those values is missing or empty |
| AcmePdns.Sub | acme-webhook/app.py:48 | the name relative to the zone never ends with a dot (what it removes is stated by `SubOfQualifiedName`, `SubKeepsName` and `SubOfMiddleOccurrence`) |
| AcmePdns.Quote | acme-webhook/app.py:49 | each TXT value is sent wrapped in double quotes and otherwise unchanged |
| AcmePdns.QuoteAll | acme-webhook/app.py:49 | every value is quoted, in order |
| AcmePdns.PatchReply | acme-webhook/app.py:50 | `ok` holds if and only if PowerDNS answered 200 or 204. The status is 200 when `ok` holds and 500 otherwise, and the body echoes the zone, the name, the code and the text |
| AcmePdns.SetTxt | acme-webhook/app.py:39-50 | a missing domain or a missing or empty value gives a 400. Otherwise the reply is what PowerDNS answered to the REPLACE of the quoted values, at the searched zone, under the sub-name |
| AcmePdns.DelTxt | acme-webhook/app.py:52-62 | a missing domain gives a 400. Otherwise the reply is what PowerDNS answered to the REPLACE with no records |
| AcmePdns.RrsetNameOfSub | acme-webhook/app.py:28 | since the sub-name never ends with a dot, the rrset is always named `sub.zone` |
| AcmePdns.SubKeepsName | acme-webhook/app.py:48 | a name in which `.zone` never occurs, and which has no trailing dot, is its own sub-name |
| AcmePdns.SubOfQualifiedName | acme-webhook/app.py:48 | a fully qualified name `p.zone`, with `.zone` starting nowhere before its end and `p` not ending in a dot, has `p` as its sub-name, so the rrset is named by the name itself |
| AcmePdns.SubOfWwwChallenge | acme-webhook/app.py:48 | `_acme-challenge.www.example.com.` in zone `example.com.` has the sub-name `_acme-challenge.www` |
| AcmePdns.SubOfMiddleOccurrence | acme-webhook/app.py:48 | every occurrence of `.zone` is removed, not only a trailing one: `x.example.com.y` in zone `example.com.` has the sub-name `xy` |
| AcmePdns.DefaultNameBelowApex | acme-webhook/app.py:43-48 | a default name below the apex keeps the zone's text too: `www.example.com` in zone `example.com.` is sent as `_acme-challenge.www.example.com.example.com.` |
| AcmePdns.DefaultNameAtApex | acme-webhook/app.py:43-48 | for every domain written without a trailing dot that is its own zone, the default name keeps the zone's text, so the record sent is `_acme-challenge.<domain>.<domain>.` |
| AcmePdns.DefaultNameAtDottedApex | acme-webhook/app.py:43-48 | a domain written with its trailing dot that is its own zone comes out right: the sub-name is `_acme-challenge` and the record sent is `_acme-challenge.<domain>.` |
| AcmePdns.DelPayloadIsEmpty | acme-webhook/app.py:60-61 | a delete empties the rrset `sub.zone` |
| MermaidZoom.ZoomedClone | wiki/docs/javascripts/mermaid-zoom.js:98-106 | the clone drops `width` and `height` and sets `preserveAspectRatio` to `xMidYMid meet`. It sets style width 100%, height auto and max-width none. All other attributes, style properties and the markup are kept |
| MermaidZoom.Enhance | wiki/docs/javascripts/mermaid-zoom.js:85-96 | one diagram of the pass: skipped when marked, else marked, and wired only when its svg is there (stated through `PassWiresRendered` and `MarkedStaysAsIs`) |
| MermaidZoom.Pass | wiki/docs/javascripts/mermaid-zoom.js:83-148 | the pass over the diagrams in document order, as a fold of `Enhance` (its properties are the `Pass...` lemmas) |
| MermaidZoom.PassMarks | wiki/docs/javascripts/mermaid-zoom.js:83-86 | the pass marks exactly the diagrams it visits, on top of those already marked |
| MermaidZoom.PassConsistent | wiki/docs/javascripts/mermaid-zoom.js:85-96 | only marked diagrams ever have a click handler |
| MermaidZoom.MarkedStaysAsIs | wiki/docs/javascripts/mermaid-zoom.js:85-89 | a diagram already marked keeps its handler, or its lack of one, through any later pass. So a diagram marked before its svg rendered never becomes clickable |
| MermaidZoom.PassOverMarked | wiki/docs/javascripts/mermaid-zoom.js:85 | a pass over diagrams that are all marked changes nothing |
| MermaidZoom.PassIdempotent | wiki/docs/javascripts/mermaid-zoom.js:83-86 | a second pass over the same diagrams changes nothing |
| MermaidZoom.PassWiresRendered | wiki/docs/javascripts/mermaid-zoom.js:83-118 | a diagram unmarked before the pass gets a handler if and only if its svg is there, and the handler clones that svg |
| MermaidZoom.ZoomOverlay.constructor | wiki/docs/javascripts/mermaid-zoom.js:4-61 | the overlay starts hidden and empty, with no diagram touched |
| MermaidZoom.ZoomOverlay.EnhancementPass | wiki/docs/javascripts/mermaid-zoom.js:80-149 | the marks and handlers after the loop are exactly those `Pass` computes from the old ones, and the overlay, its content and the hints do not change |
| MermaidZoom.ZoomOverlay.DiagramClick | wiki/docs/javascripts/mermaid-zoom.js:96-118 | clicking a wired diagram shows the overlay, locks scrolling, and leaves exactly one child: the zoomed clone of that diagram's svg. Any other click changes nothing |
| MermaidZoom.ZoomOverlay.Hide | wiki/docs/javascripts/mermaid-zoom.js:66-67 | the overlay is hidden and the page scrolls again; the container keeps its clone |
| MermaidZoom.ZoomOverlay.ModalClick | wiki/docs/javascripts/mermaid-zoom.js:64-69 | a click on the background or the close button hides the overlay. A click inside it changes nothing |
| MermaidZoom.ZoomOverlay.KeyDown | wiki/docs/javascripts/mermaid-zoom.js:72-77 | Escape hides the overlay only while it is shown; any other key changes nothing |
| MermaidZoom.ZoomOverlay.MouseEnter | wiki/docs/javascripts/mermaid-zoom.js:121-142 | hovering a wired diagram leaves it with a hint; since the hinted diagrams are a set, a second hint is never added |
| MermaidZoom.ZoomOverlay.MouseLeave | wiki/docs/javascripts/mermaid-zoom.js:144-147 | leaving a wired diagram removes its hint |
| ByrneSite.Digits | byrne-website/assets/js/main.js:213 | `replace(/\D/g, '')` keeps only ASCII digits and never lengthens the text |
| ByrneSite.Layout | byrne-website/assets/js/main.js:214-222 | the layout of the digits is never longer than `(ddd) ddd-dddd` |
| ByrneSite.FormatPhone | byrne-website/assets/js/main.js:212-224 | the formatted field is at most 14 characters long |
| ByrneSite.DigitsAppend | byrne-website/assets/js/main.js:213 | the digits of a concatenation are the concatenation of the digits |
| ByrneSite.DigitsOfDigits | byrne-website/assets/js/main.js:213 | a string of digits is its own digit string |
| ByrneSite.DigitsOfNonDigits | byrne-website/assets/js/main.js:213 | punctuation has no digits |
| ByrneSite.AppendPunct | byrne-website/assets/js/main.js:216-220 | adding punctuation does not change the digits |
| ByrneSite.AppendDigits | byrne-website/assets/js/main.js:216-220 | adding digits adds exactly those digits |
| ByrneSite.LayoutDigitsMid | byrne-website/assets/js/main.js:217-218 | with 4 to 6 digits, the layout keeps all of them |
| ByrneSite.LayoutDigitsLong | byrne-website/assets/js/main.js:219-220 | with 7 or more digits, the layout keeps the first ten |
| ByrneSite.FormatKeepsDigits | byrne-website/assets/js/main.js:212-224 | the field keeps the input's digits in order, up to ten of them |
| ByrneSite.FormatLength | byrne-website/assets/js/main.js:214-222 | by digit count: no digits gives an empty field, 1-3 digits add `(`, 4-6 add `(`, `) `, and 7 or more add `-` too and keep at most ten digits. A non-empty result starts with `(`; with 4 or more digits `) ` follows the first three, and with 7 or more `-` follows the next three |
| ByrneSite.FormatIdempotent | byrne-website/assets/js/main.js:212-224 | formatting the formatted field changes nothing |
| ByrneSite.InView | byrne-website/assets/js/main.js:234-236 | the scroll position lies in the section with its top moved up by 100 pixels (used by `LastInViewIsLast` and `AnchorTargetInView`) |
| ByrneSite.LastInView | byrne-website/assets/js/main.js:232-239 | the id of the last section in view, or `''` (stated by `LastInViewIsLast` and `LastInViewNone`) |
| ByrneSite.ActiveSection | byrne-website/assets/js/main.js:232-239 | the loop's `current` is `LastInView`: the id of the last section in document order that is in view, or `''` |
| ByrneSite.LastInViewIsLast | byrne-website/assets/js/main.js:233-238 | when section k is in view and no later one is, section k's id is the active one |
| ByrneSite.LastInViewNone | byrne-website/assets/js/main.js:232-239 | with no section in view, the active id is `''` |
| ByrneSite.HighlightLinks | byrne-website/assets/js/main.js:241-248 | afterwards a link is highlighted if and only if its href is `#` followed by the active id |
| ByrneSite.OnScroll | byrne-website/assets/js/main.js:228-249 | a link is highlighted if and only if its href names the last section in view |
| ByrneSite.MobileMenu.constructor | byrne-website/assets/js/main.js:7-10 | the menu starts closed |
| ByrneSite.MobileMenu.ToggleClicked | byrne-website/assets/js/main.js:11-12 | the toggle flips `active` |
| ByrneSite.MobileMenu.LinkClicked | byrne-website/assets/js/main.js:29-31 | a nav link click closes the menu |
| ByrneSite.MobileMenu.DocumentClicked | byrne-website/assets/js/main.js:41-43 | a click outside both the menu and the toggle closes the menu; any other click leaves it as it was |
| ByrneSite.MobileMenu.Click | byrne-website/assets/js/main.js:11-50 | one click as it bubbles up: on the toggle it flips the menu, on a link or outside it closes the menu, elsewhere in the menu it changes nothing |
| ByrneSite.NavbarShadow | byrne-website/assets/js/main.js:83-91 | the large shadow is shown if and only if the page is scrolled more than 50 pixels |
| ByrneSite.AnchorClick | byrne-website/assets/js/main.js:57-75 | a bare `#` is left to the browser. Any other href scrolls if and only if it finds its target, and then it scrolls to the target's top minus the navbar height |
| ByrneSite.AnchorTargetInView | byrne-website/assets/js/main.js:57-75 | after the anchor scroll, the section counts as in view for the active-link handler, given a navbar of at most 100 pixels and a section taller than the gap left |

## Left out

- The etcd value's JSON bytes: `json.dumps` is the datatype `TxtRecord(text, ttl)`. Key order and escaping are not modelled.
- JSON bodies: every field is a string. A number, a boolean or a list where a string is expected (which Python would treat by its truthiness) is not modelled. For PowerDNS, `values` is a list of strings.
- The etcd webhook's `request.get_json()`, for a JSON body that is not an object:
  - a falsy one (`[]`, `""`, `0`, `false`) is answered with the 400 "No JSON data provided", like an empty object;
  - a truthy one (a non-empty list or string, a non-zero number, `true`) raises, which Flask answers with a 500. On `/update-txt-record` the raise is at `data.get`; on the legacy endpoints it is earlier, at `data['action'] = …`.
  - A request that is not JSON at all makes Flask answer with an error of its own.
  - None of these is modelled: the model's body is always an object or absent.
- The PowerDNS `get_json(force=True)`: valid JSON that is not an object (a list, a string) makes `data.get` raise, which Flask answers with a 500; a body that is not JSON at all is answered by Flask with a 400 before the handler runs. Neither is modelled; the model's body is always an object.
- The etcd client, its connection settings, the environment variables (`ETCD_HOST`, `ETCD_PORT`, `DNS_TTL`, `PDNS_API_URL`, `PDNS_API_KEY`, the key file), logging, the `/health` and `/healthz` endpoints and the Flask server. An etcd exception is represented only by its message (`fault`). The TTL is a parameter.
- The PowerDNS HTTP calls: they are the parameters `zoneExists` and `patch`. Headers, URLs, timeouts and network errors are not modelled.
- `request.get_json()` caching: each legacy endpoint's mutation of the cached body is the function `ForceAction`, applied before the dispatch.
- Timers: the 1500 ms delay before the diagram pass is not modelled; the pass runs when `EnhancementPass` is called.
- CSS: the overlay's and hint's style text, the close button's hover colours, the hamburger `span` transforms, the exact link colour and weight (the model has `Highlighted`/`Plain`) and the shadow values (`LargeShadow`/`SmallShadow`).
- The contact form, the IntersectionObserver fade-in, the console banner and the unused `lastScroll` variable of the marketing script.
- The `if (mobileMenuToggle && navMenu)` guard: the menu model assumes both elements exist.
- A missing `.navbar` in the anchor handler (a crash in the source): the navbar height is a parameter.
- An href that is not a valid selector (`document.querySelector` would throw) is not modelled: an href either finds its target or does not.
- Smooth-scroll animation and fractional offsets: positions are whole pixels, and the scroll lands exactly on the target.
- MermaidZoom.ZoomOverlay.EnhancementPass: the click handler keeps a reference to the svg element and clones it at click time; the model records the svg's value when the pass runs, so changes to that element after the pass are not modelled.
- MermaidZoom.ZoomedClone: the svg's `style` attribute is kept apart from its other attributes, so the interplay between `setAttribute('style', …)` and `clone.style` is not modelled.
- MermaidZoom.ZoomOverlay.MouseLeave: the hinted diagrams are a set, so hints that other code might add inside a diagram are not modelled.
- Event propagation in the DOM: a click reaches the target's own listener and then the document's, and that order is written into one method.
- The server-setup script of the repository is not part of this model.
