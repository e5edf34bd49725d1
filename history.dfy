/**
 * Sequences of requests against one bot process, from the empty registry it
 * starts with. Pending gives, without replaying the registry, the entry a code
 * holds after a history: the one stored by the last accepted issue of the
 * code, unless a later redeem of the code came before that entry's deadline.
 * RunMatchesPending proves that replaying the requests gives exactly that.
 */
module History {

  import opened Wrappers
  import opened NickCodes

  /** A request reaching the registry: an issue over HTTP or a /nickme command. */
  datatype Event =
    | IssueEvent(header: Option<string>, code: string, rpName: string, now: int)
    | RedeemEvent(code: string, now: int, renameAndReplySucceed: bool)

  function Apply(codes: map<string, Entry>, apiKey: string, e: Event): map<string, Entry> {
    match e
    case IssueEvent(header, code, rpName, now) => IssueStep(codes, header, apiKey, code, rpName, now).codes
    case RedeemEvent(code, now, renameAndReplySucceed) => RedeemStep(codes, code, now, renameAndReplySucceed).codes
  }

  /** The registry after the requests of a history, in order, starting from the empty map. */
  function Run(apiKey: string, events: seq<Event>): (codes: map<string, Entry>)
    ensures WellFormed(codes)
    decreases |events|
  {
    if events == [] then map[]
    else Apply(Run(apiKey, events[..|events| - 1]), apiKey, events[|events| - 1])
  }

  function Lookup(codes: map<string, Entry>, code: string): Option<Entry> {
    if code in codes then Some(codes[code]) else None
  }

  /** An issue of the code that passes both checks. */
  predicate Accepted(e: Event, apiKey: string, code: string) {
    e.IssueEvent? && e.code == code && Authorized(e.header, apiKey) && FieldsPresent(e.code, e.rpName)
  }

  /** A redeem of the code no later than the given deadline. */
  predicate Consumes(e: Event, code: string, deadline: int) {
    e.RedeemEvent? && e.code == code && e.now <= deadline
  }

  /** The position of the last accepted issue of the code, if any. */
  function LastIssue(events: seq<Event>, apiKey: string, code: string): (i: Option<nat>)
    ensures i.Some? ==>
      i.value < |events| && Accepted(events[i.value], apiKey, code) &&
      forall j :: i.value < j < |events| ==> !Accepted(events[j], apiKey, code)
    ensures i.None? ==> forall j :: 0 <= j < |events| ==> !Accepted(events[j], apiKey, code)
    decreases |events|
  {
    if events == [] then None
    else if Accepted(events[|events| - 1], apiKey, code) then Some(|events| - 1)
    else LastIssue(events[..|events| - 1], apiKey, code)
  }

  /** Some redeem of the code after position i and no later than the deadline. */
  predicate ConsumedAfter(events: seq<Event>, i: nat, code: string, deadline: int) {
    exists j :: i < j < |events| && Consumes(events[j], code, deadline)
  }

  /** The entry the code holds after the history, defined from the history alone. */
  function Pending(events: seq<Event>, apiKey: string, code: string): Option<Entry> {
    match LastIssue(events, apiKey, code)
    case None => None
    case Some(i) =>
      var e := NewEntry(events[i].rpName, events[i].now);
      if ConsumedAfter(events, i, code, e.expiresAt) then None else Some(e)
  }

  /** Replaying a history leaves under each code exactly the entry Pending describes. */
  lemma {:induction false} RunMatchesPending(apiKey: string, events: seq<Event>, code: string)
    ensures Lookup(Run(apiKey, events), code) == Pending(events, apiKey, code)
    decreases |events|
  {
    if events != [] {
      var n := |events| - 1;
      var prefix, e := events[..n], events[n];
      assert events == prefix + [e];
      RunMatchesPending(apiKey, prefix, code);
      var before := Run(apiKey, prefix);
      if Accepted(e, apiKey, code) {
        assert LastIssue(events, apiKey, code) == Some(n);
        assert !ConsumedAfter(events, n, code, e.now + TTL);
      } else {
        assert LastIssue(events, apiKey, code) == LastIssue(prefix, apiKey, code);
        match LastIssue(prefix, apiKey, code)
        case None =>
          assert code !in before;
        case Some(i) =>
          var entry := NewEntry(prefix[i].rpName, prefix[i].now);
          assert events[i] == prefix[i];
          ConsumedAfterExtend(prefix, e, i, code, entry.expiresAt);
          if ConsumedAfter(prefix, i, code, entry.expiresAt) {
            assert code !in before;
          } else {
            assert before[code] == entry;
          }
      }
    }
  }

  lemma ConsumedAfterExtend(prefix: seq<Event>, e: Event, i: nat, code: string, deadline: int)
    requires i < |prefix|
    ensures ConsumedAfter(prefix + [e], i, code, deadline) <==>
            ConsumedAfter(prefix, i, code, deadline) || Consumes(e, code, deadline)
  {
    var events := prefix + [e];
    if ConsumedAfter(prefix, i, code, deadline) {
      var j :| i < j < |prefix| && Consumes(prefix[j], code, deadline);
      assert events[j] == prefix[j];
    }
    if Consumes(e, code, deadline) {
      assert events[|prefix|] == e;
    }
    if ConsumedAfter(events, i, code, deadline) {
      var j :| i < j < |events| && Consumes(events[j], code, deadline);
      if j < |prefix| {
        assert prefix[j] == events[j];
      }
    }
  }

  /**
   * What a /nickme redeem of the code replies after a history: the name of
   * the last accepted issue, if no earlier redeem consumed it and its deadline
   * has not passed; otherwise the one generic invalid-or-expired reply.
   */
  lemma {:induction false} RedeemAfterHistory(apiKey: string, events: seq<Event>, code: string,
                                              now: int, renameAndReplySucceed: bool)
    ensures var r := RedeemStep(Run(apiKey, events), code, now, renameAndReplySucceed).reply;
      match Pending(events, apiKey, code)
      case None => r == InvalidOrExpired
      case Some(e) =>
        r == (if Expired(e, now) then InvalidOrExpired
              else if renameAndReplySucceed then Renamed(e.rpName) else PermissionFailure)
  {
    RunMatchesPending(apiKey, events, code);
  }

  /** A code never accepted by the issue endpoint never redeems. */
  lemma {:induction false} NeverIssuedNeverRedeems(apiKey: string, events: seq<Event>, code: string,
                                                   now: int, renameAndReplySucceed: bool)
    requires forall j :: 0 <= j < |events| ==> !Accepted(events[j], apiKey, code)
    ensures RedeemStep(Run(apiKey, events), code, now, renameAndReplySucceed).reply == InvalidOrExpired
  {
    RunMatchesPending(apiKey, events, code);
  }

  /**
   * After a redeem of the code that found it live, the code stays unredeemable
   * until it is issued again, whatever redeems and other requests follow.
   */
  lemma {:induction false} ConsumedUntilReissued(apiKey: string, events: seq<Event>, code: string,
                                                 k: nat, now: int, renameAndReplySucceed: bool)
    requires k < |events| && events[k].RedeemEvent? && events[k].code == code
    requires RedeemStep(Run(apiKey, events[..k]), code, events[k].now, events[k].renameAndReplySucceed).reply != InvalidOrExpired
    requires forall j :: k < j < |events| ==> !Accepted(events[j], apiKey, code)
    ensures RedeemStep(Run(apiKey, events), code, now, renameAndReplySucceed).reply == InvalidOrExpired
  {
    var prefix := events[..k];
    RunMatchesPending(apiKey, prefix, code);
    RunMatchesPending(apiKey, events, code);
    var i := LastIssue(prefix, apiKey, code).value;
    assert prefix[i] == events[i];
    LastIssuePastPrefix(events, apiKey, code, k);
    var entry := NewEntry(prefix[i].rpName, prefix[i].now);
    assert Consumes(events[k], code, entry.expiresAt);
    assert ConsumedAfter(events, i, code, entry.expiresAt);
  }

  lemma {:induction false} LastIssuePastPrefix(events: seq<Event>, apiKey: string, code: string, k: nat)
    requires k <= |events|
    requires forall j :: k <= j < |events| ==> !Accepted(events[j], apiKey, code)
    ensures LastIssue(events, apiKey, code) == LastIssue(events[..k], apiKey, code)
    decreases |events|
  {
    if |events| > k {
      var prefix := events[..|events| - 1];
      assert prefix[..k] == events[..k];
      LastIssuePastPrefix(prefix, apiKey, code, k);
    } else {
      assert events[..k] == events;
    }
  }
}
