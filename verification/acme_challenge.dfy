/** What the two DNS webhooks share: the name of the challenge record. */
module AcmeChallenge {

  /** The owner label of a DNS-01 challenge record (section 8.4 of RFC 8555). */
  const CHALLENGE_LABEL: string := "_acme-challenge"
}
