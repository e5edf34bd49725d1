/**
 * The pending-code registry of the nickname bot: a map from a one-time code,
 * issued by the game server, to the role-play name the redeeming chat member
 * is to be renamed to. Codes are issued over HTTP (POST /nick-codes, guarded
 * by a shared API key) and redeemed by the /nickme chat command: each code
 * lives ten minutes and can be redeemed once.
 *
 * The pure step functions IssueStep and RedeemStep say what one request does
 * to the map; the class Registry keeps the map as a field and updates it in
 * place, as the module-level CODES map is updated in the bot.
 */
module NickCodes {

  import opened Wrappers

  /** Lifetime of an issued code, in milliseconds: ten minutes. */
  const TTL: int := 10 * 60 * 1000

  /** What the registry stores under a code. */
  datatype Entry = Entry(rpName: string, createdAt: int, expiresAt: int)

  /** Replies of the issue endpoint: 401, 400 and 200 {ok: true}. */
  datatype IssueResult = Unauthorized | MissingFields | Issued

  /** Private replies of the redeem command. */
  datatype RedeemResult = InvalidOrExpired | Renamed(rpName: string) | PermissionFailure

  /** The x-api-key header is present and equals the configured key. */
  predicate Authorized(header: Option<string>, apiKey: string) {
    header == Some(apiKey)
  }

  /** Both body fields are present; an empty string counts as missing. */
  predicate FieldsPresent(code: string, rpName: string) {
    code != "" && rpName != ""
  }

  /** An entry is expired once the clock is strictly past its deadline. */
  predicate Expired(e: Entry, now: int) {
    now > e.expiresAt
  }

  /** The entry stored by a successful issue at time now. */
  function NewEntry(rpName: string, now: int): Entry {
    Entry(rpName, now, now + TTL)
  }

  /** What every registry reachable through IssueStep and RedeemStep satisfies. */
  ghost predicate WellFormed(codes: map<string, Entry>) {
    forall c :: c in codes ==>
      c != "" && codes[c].rpName != "" && codes[c].expiresAt == codes[c].createdAt + TTL
  }

  /** The reply to an issue request and the registry it leaves. */
  datatype IssueOutcome = IssueOutcome(reply: IssueResult, codes: map<string, Entry>)

  /** The reply to a redeem command and the registry it leaves. */
  datatype RedeemOutcome = RedeemOutcome(reply: RedeemResult, codes: map<string, Entry>)

  /**
   * One POST /nick-codes request: the key is checked first, then the fields;
   * only when both pass is the entry stored, replacing any earlier one.
   */
  function IssueStep(codes: map<string, Entry>, header: Option<string>, apiKey: string,
                     code: string, rpName: string, now: int): (out: IssueOutcome)
    ensures out.reply == Unauthorized <==> !Authorized(header, apiKey)
    ensures out.reply == MissingFields <==> Authorized(header, apiKey) && !FieldsPresent(code, rpName)
    ensures out.reply == Issued <==> Authorized(header, apiKey) && FieldsPresent(code, rpName)
    ensures out.reply != Issued ==> out.codes == codes
    ensures out.reply == Issued ==>
      out.codes.Keys == codes.Keys + {code} &&
      out.codes[code] == Entry(rpName, now, now + TTL) &&
      forall c :: c in codes && c != code ==> out.codes[c] == codes[c]
    ensures WellFormed(codes) ==> WellFormed(out.codes)
  {
    if !Authorized(header, apiKey) then IssueOutcome(Unauthorized, codes)
    else if !FieldsPresent(code, rpName) then IssueOutcome(MissingFields, codes)
    else IssueOutcome(Issued, codes[code := NewEntry(rpName, now)])
  }

  /**
   * One /nickme command with the given code at time now. The rename and the
   * confirmation reply are attempted together, and either failing leads to
   * the permission-failure reply: renameAndReplySucceed says whether both
   * completed, should they be attempted. An absent and an expired code give
   * the same reply and leave the map as it was; a live code is removed
   * whatever happens to the rename.
   */
  function RedeemStep(codes: map<string, Entry>, code: string, now: int,
                      renameAndReplySucceed: bool): (out: RedeemOutcome)
    ensures out.reply == InvalidOrExpired <==> code !in codes || Expired(codes[code], now)
    ensures out.reply == InvalidOrExpired ==> out.codes == codes
    ensures out.reply != InvalidOrExpired ==>
      out.codes.Keys == codes.Keys - {code} &&
      forall c :: c in out.codes ==> out.codes[c] == codes[c]
    ensures out.reply.Renamed? <==>
      code in codes && !Expired(codes[code], now) && renameAndReplySucceed
    ensures out.reply.Renamed? ==> out.reply.rpName == codes[code].rpName
    ensures out.reply == PermissionFailure <==>
      code in codes && !Expired(codes[code], now) && !renameAndReplySucceed
    ensures WellFormed(codes) ==> WellFormed(out.codes)
  {
    if code !in codes || Expired(codes[code], now) then RedeemOutcome(InvalidOrExpired, codes)
    else
      var rest := codes - {code};
      if renameAndReplySucceed then RedeemOutcome(Renamed(codes[code].rpName), rest)
      else RedeemOutcome(PermissionFailure, rest)
  }

  /** The registry of pending codes, updated in place by both handlers. */
  class Registry {

    var codes: map<string, Entry>

    ghost predicate Valid()
      reads this
    {
      WellFormed(codes)
    }

    /** The registry is empty when the bot starts. */
    constructor ()
      ensures Valid() && codes == map[]
    {
      codes := map[];
    }

    /** The POST /nick-codes handler. */
    method Issue(header: Option<string>, apiKey: string, code: string, rpName: string, now: int)
      returns (r: IssueResult)
      requires Valid()
      modifies this
      ensures Valid()
      ensures IssueOutcome(r, codes) == IssueStep(old(codes), header, apiKey, code, rpName, now)
    {
      if !Authorized(header, apiKey) {
        return Unauthorized;
      }
      if !FieldsPresent(code, rpName) {
        return MissingFields;
      }
      codes := codes[code := NewEntry(rpName, now)];
      r := Issued;
    }

    /** The body of the /nickme handler once the command is recognised. */
    method Redeem(code: string, now: int, renameAndReplySucceed: bool) returns (r: RedeemResult)
      requires Valid()
      modifies this
      ensures Valid()
      ensures RedeemOutcome(r, codes) == RedeemStep(old(codes), code, now, renameAndReplySucceed)
    {
      if code !in codes || Expired(codes[code], now) {
        return InvalidOrExpired;
      }
      var rpName := codes[code].rpName;
      codes := codes - {code};
      if renameAndReplySucceed {
        r := Renamed(rpName);
      } else {
        r := PermissionFailure;
      }
    }

    /**
     * The interactionCreate listener: anything but the /nickme chat command
     * is ignored without a reply; /nickme redeems its code argument.
     */
    method OnInteraction(isChatInputCommand: bool, commandName: string, code: string,
                         now: int, renameAndReplySucceed: bool) returns (reply: Option<RedeemResult>)
      requires Valid()
      modifies this
      ensures Valid()
      ensures !(isChatInputCommand && commandName == "nickme") ==>
        reply == None && codes == old(codes)
      ensures isChatInputCommand && commandName == "nickme" ==>
        reply.Some? &&
        RedeemOutcome(reply.value, codes) == RedeemStep(old(codes), code, now, renameAndReplySucceed)
    {
      if !isChatInputCommand || commandName != "nickme" {
        return None;
      }
      var r := Redeem(code, now, renameAndReplySucceed);
      reply := Some(r);
    }
  }

  // Properties relating several requests.

  /**
   * A code issued at time t can be redeemed at any time up to and including
   * t + TTL, and the redeem reports the issued name.
   */
  lemma IssueThenRedeem(codes: map<string, Entry>, apiKey: string, code: string, rpName: string,
                        t: int, now: int, renameAndReplySucceed: bool)
    requires FieldsPresent(code, rpName)
    requires now <= t + TTL
    ensures var issued := IssueStep(codes, Some(apiKey), apiKey, code, rpName, t).codes;
      var out := RedeemStep(issued, code, now, renameAndReplySucceed);
      out.reply == (if renameAndReplySucceed then Renamed(rpName) else PermissionFailure) &&
      out.codes == codes - {code}
  {
  }

  /** One millisecond past t + TTL, a code issued at t is treated as never issued. */
  lemma RedeemAfterTTL(codes: map<string, Entry>, apiKey: string, code: string, rpName: string,
                       t: int, now: int, renameAndReplySucceed: bool)
    requires FieldsPresent(code, rpName)
    requires now > t + TTL
    ensures var issued := IssueStep(codes, Some(apiKey), apiKey, code, rpName, t).codes;
      RedeemStep(issued, code, now, renameAndReplySucceed) == RedeemOutcome(InvalidOrExpired, issued)
  {
  }

  /** An expired entry is indistinguishable from an absent one: same reply, and nothing removed. */
  lemma ExpiredLikeAbsent(codes: map<string, Entry>, code: string, now: int, renameAndReplySucceed: bool)
    requires code in codes && Expired(codes[code], now)
    ensures RedeemStep(codes, code, now, renameAndReplySucceed).reply ==
            RedeemStep(codes - {code}, code, now, renameAndReplySucceed).reply
    ensures RedeemStep(codes, code, now, renameAndReplySucceed).codes == codes
  {
  }

  /** Single use: once a redeem has found the code live, any further redeem of it is invalid. */
  lemma SingleUse(codes: map<string, Entry>, code: string, now: int, renameAndReplySucceed: bool,
                  later: int, renameAndReplySucceed': bool)
    requires RedeemStep(codes, code, now, renameAndReplySucceed).reply != InvalidOrExpired
    ensures var after := RedeemStep(codes, code, now, renameAndReplySucceed).codes;
      RedeemStep(after, code, later, renameAndReplySucceed') == RedeemOutcome(InvalidOrExpired, after)
  {
  }

  /** Last write wins: of two issues of one code, the redeem reports the second name. */
  lemma LastWriteWins(codes: map<string, Entry>, apiKey: string, code: string,
                      first: string, second: string, t1: int, t2: int, now: int)
    requires FieldsPresent(code, first) && FieldsPresent(code, second)
    requires now <= t2 + TTL
    ensures var m1 := IssueStep(codes, Some(apiKey), apiKey, code, first, t1).codes;
      var m2 := IssueStep(m1, Some(apiKey), apiKey, code, second, t2).codes;
      RedeemStep(m2, code, now, true).reply == Renamed(second)
  {
  }

  /** The empty code is never stored, so it never redeems. */
  lemma EmptyCodeNeverRedeems(codes: map<string, Entry>, now: int, renameAndReplySucceed: bool)
    requires WellFormed(codes)
    ensures RedeemStep(codes, "", now, renameAndReplySucceed).reply == InvalidOrExpired
  {
  }

  /** Issuing 123456 for Mario Rossi, redeeming it within the TTL, then redeeming it again. */
  lemma ExchangeScenario(apiKey: string, t: int)
    ensures var issue := IssueStep(map[], Some(apiKey), apiKey, "123456", "Mario Rossi", t);
      var first := RedeemStep(issue.codes, "123456", t + 1000, true);
      var second := RedeemStep(first.codes, "123456", t + 2000, true);
      issue.reply == Issued && first.reply == Renamed("Mario Rossi") &&
      second.reply == InvalidOrExpired && second.codes == map[]
  {
  }

  /** A rejected issue leaves the registry as it was, so its code still does not redeem. */
  lemma RejectedIssueStoresNothing(apiKey: string, header: Option<string>, code: string,
                                   rpName: string, t: int, now: int, renameAndReplySucceed: bool)
    requires header != Some(apiKey)
    ensures var issue := IssueStep(map[], header, apiKey, code, rpName, t);
      issue.reply == Unauthorized &&
      RedeemStep(issue.codes, code, now, renameAndReplySucceed) == RedeemOutcome(InvalidOrExpired, map[])
  {
  }
}
