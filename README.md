# Nickname bot: the pending-code registry

The bot renames a chat-guild member to their role-play name from a game. The
game server issues a short code over HTTP (`POST /nick-codes`, guarded by a
shared `x-api-key`), shows it to the player, and the player types
`/nickme <code>` in the guild. The bot keeps the issued codes in one in-memory
map, `CODES`, from code to `{rpName, createdAt, expiresAt}`. This project
models that map and its two operations:

- **issue**: the API key is checked first (401 `unauthorized`), then the two
  body fields (400 `missing fields`). Only then is the entry stored with a
  ten-minute lifetime, replacing any earlier entry for the same code (last
  write wins);
- **redeem**: an absent code and an expired code (`now > expiresAt`) get the
  same generic reply and leave the map untouched. A live code is removed
  *before* the rename is attempted, so it is used up even when the rename
  fails.

Files:

- `wrappers.dfy`: `Option`.
- `registry.dfy`, module `NickCodes`: entries, replies and guards, the pure
  step functions `IssueStep` and `RedeemStep`, and the class `Registry`. Its
  `codes` field is updated in place by `Issue`, `Redeem` and `OnInteraction`,
  each proved equal to its step function. The module also holds lemmas
  relating several requests.
- `history.dfy`, module `History`: histories of requests from the empty map
  the process starts with. `Pending` defines a code's entry from the history
  alone: the entry of the last accepted issue, unless a later redeem came
  before its deadline. `RunMatchesPending` proves that replaying the requests
  gives exactly that entry.

The clock (`Date.now()`) is a parameter `now` in milliseconds. The
parameter `renameAndReplySucceed` says whether the rename and the confirmation
reply both completed. In the handler both calls share one `try` block, so a
failure of either one leads to the permission-failure reply. The replies are
returned values.

## Model

| member | source | states |
|---|---|---|
| `NickCodes.IssueStep` | index.js:76-83 | The reply is unauthorized exactly when the header is not the configured key. It is missing-fields exactly when the key passes and `code` or `rpName` is empty, so the key check comes first. Both rejections leave the map unchanged. Success maps `code` to `{rpName, now, now + 600000}`, adds no other key and keeps every other entry. Well-formedness is preserved. |
| `NickCodes.RedeemStep` | index.js:50-67 | The reply is invalid-or-expired exactly when the code is absent or `now > expiresAt`; then the map is unchanged, so expired entries are not evicted. Otherwise exactly the code's key is removed and all other entries are kept, for either value of `renameAndReplySucceed`. The reply is `Renamed(stored rpName)` when the rename and the confirmation both complete, and permission-failure otherwise. |
| `NickCodes.Registry.constructor` | index.js:23 | The registry starts empty and well-formed. |
| `NickCodes.Registry.Issue` | index.js:75-86 | Returns the reply and leaves `codes` in the state that `IssueStep` gives for the old map, and keeps the invariant. |
| `NickCodes.Registry.Redeem` | index.js:49-68 | Returns the reply and leaves `codes` in the state that `RedeemStep` gives for the old map. `codes` loses the code for either value of `renameAndReplySucceed`. |
| `NickCodes.Registry.OnInteraction` | index.js:45-69 | An interaction that is not the `/nickme` chat command gets no reply and changes nothing. `/nickme` performs exactly a redeem of its code. |
| `NickCodes.IssueThenRedeem` | index.js:50-83 | A code issued at `t` and redeemed at any `now <= t + TTL` reports the issued name, or permission-failure. The map after the redeem is the map before the issue minus that code. The bound `now == t + TTL` is included. There is no lower bound: a `now` earlier than `t` is also live, since only `now > expiresAt` expires an entry. |
| `NickCodes.RedeemAfterTTL` | index.js:52-83 | Redeeming at any `now > t + TTL` a code issued at `t` gives invalid-or-expired and leaves the map unchanged. |
| `NickCodes.ExpiredLikeAbsent` | index.js:50-53 | On an expired entry, the reply is the same as if the code had never been stored, and the entry is not deleted. |
| `NickCodes.SingleUse` | index.js:50-57 | Once a redeem has found a code live, any further redeem of it gives invalid-or-expired and changes nothing. |
| `NickCodes.LastWriteWins` | index.js:83 | After two successful issues of one code, a live redeem reports the second name. |
| `NickCodes.EmptyCodeNeverRedeems` | index.js:50-80 | An empty code is never stored, so redeeming it is always invalid-or-expired. |
| `NickCodes.ExchangeScenario` | index.js:50-83 | Issuing `123456` for `Mario Rossi` succeeds. Redeeming it within the TTL renames to `Mario Rossi`. A second redeem is invalid-or-expired, and the registry ends empty. |
| `NickCodes.RejectedIssueStoresNothing` | index.js:76-77 | An issue with a wrong or absent key is unauthorized and stores nothing, so the code it carried does not redeem. |
| `History.Run` | index.js:23-83 | Every registry reached from the empty map by any sequence of issues and redeems is well-formed. Every key is non-empty, every name is non-empty, and `expiresAt == createdAt + TTL`. |
| `History.RunMatchesPending` | index.js:50-83 | After any history, a code holds exactly the entry of its last accepted issue, unless some later redeem of it came no later than that entry's deadline. Otherwise it holds nothing. |
| `History.RedeemAfterHistory` | index.js:50-67 | After any history, the redeem reply is fully determined by `Pending`. An unconsumed, unexpired last issue gives its name (or permission-failure). Everything else gives the one invalid-or-expired reply. |
| `History.NeverIssuedNeverRedeems` | index.js:50-80 | A code that no accepted issue ever carried is invalid-or-expired after any history. |
| `History.ConsumedUntilReissued` | index.js:50-57 | After a redeem that found the code live, the code stays invalid-or-expired through any later requests until an accepted issue of it. Unauthorized or incomplete issues do not count as issues. |

## Left out

- The chat gateway client, login and slash-command registration over REST (index.js:25-43, 91): network plumbing. Only the filter on the interaction kind and command name (index.js:46-47) is modelled.
- Express setup, JSON body parsing, HTTP status codes and the liveness route `GET /` (index.js:72-73, 88-90): transport. The 401, 400 and 200 replies are the cases of `IssueResult`.
- Configuration loading and the exit on missing variables (index.js:1, 12-21): bootstrap. The configured API key is a parameter.
- `setNickname` and `reply` (index.js:60-67) are asynchronous foreign calls. Whether both complete is the input `renameAndReplySucceed`, and the reply is the returned `RedeemResult`. The model does not record whether a member was renamed. So the path where `setNickname` succeeds but the confirmation reply fails is `renameAndReplySucceed == false`: the member is renamed, yet the handler sends the permission-failure reply (index.js:61-64). Error logging is left out.
- NickCodes.IssueStep: stores `createdAt` and `expiresAt` from one clock reading `now`. The handler reads the clock twice (index.js:83), so there `expiresAt - createdAt` may exceed the TTL by the time between the two readings.
- JavaScript truthiness: `code` and `rpName` are strings, and the empty string stands for "missing". A non-string `code` in the JSON body (a number, `0`, `false`, `null`) is not modelled. Nor is the fact that a numeric code would be a different map key from the string that the slash command passes.
- Interleaving: the lookup and the delete of a redeem have no suspension point between them (index.js:50-57), so requests are modelled as running one after another.
- The admin lookup by role-play name and the privileged direct rename are not part of this model: they do not appear in index.js.
