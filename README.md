# NumberofOnline in Dafny

A model of the Bukkit plugin `NumberofOnline`. The plugin keeps a cache of player counts for the servers behind a BungeeCord proxy and shows them through PlaceholderAPI.

- **Requests.** On each refresh it sends a `PlayerCount` request for `"ALL"` and then one for every configured server. The requests go over the `BungeeCord` plugin-messaging channel.
- **Responses.** It stores each count the proxy sends back: the network total for `"ALL"`, otherwise the per-server count.
- **Queries.** It answers three kinds of lookup: one server's count, the network total, and the sum over a configured group of servers.
- **Placeholders.** It resolves the placeholders `%numberofonline_network_total%`, `%numberofonline_server_<name>%`, `%numberofonline_group_<name>%` and `%numberofonline_total_players%`.

The model is split by concern:

| file | module | contents |
|---|---|---|
| `wrappers.dfy` | `Wrappers` | `Option`, `Result`, and `Outcome` (either `Pass` or "threw `e`"). |
| `java_int.dfy` | `JavaInt` | The 32-bit `int` range and the wrap-around of `+`. `String.valueOf(int)` with a parser that inverts it. |
| `data_io.dfy` | `DataIO` | `writeUTF`/`readUTF` as byte functions, with the 2-byte length and modified UTF-8 over UTF-16 code units. `writeInt`/`readInt` as big-endian two's complement. The failures each read or write can throw. |
| `protocol.dfy` | `Protocol` | The request payload and the response decoder. The order and stopping rule of a refresh cycle. |
| `player_counts.dfy` | `PlayerCounts` | The count store as a value. A response's effect on it (`Receive`). Group sums, and the effect of `loadConfig` on both maps. |
| `placeholders.dfy` | `Placeholders` | Placeholder dispatch (`Resolve`) and what each reply means. |
| `plugin.dfy` | `Plugin` | The class `NumberofOnline` with the plugin's fields and one method per operation, plus the class `PlayerCountExpansion`. |

The object's methods change the fields in place, as the Java class does. Each method's postcondition ties the new state or the result to the pure functions of `Protocol`, `PlayerCounts` and `Placeholders`, and the lemmas beside those functions prove the properties.

Host services are inputs or outputs:

- **Player online.** `hasPlayer` says whether a player is online to send the request through.
- **Sent messages.** The transport is the field `sentMessages`, a log of every payload passed to `sendPluginMessage`.
- **Online players.** `onlinePlayers` is the size of `getServer().getOnlinePlayers()`.
- **Configuration.** The configuration is passed to `LoadConfig` already read.

A method that throws in Java returns `Fail(e)` in the model, with `e` the failure that was thrown.

Three behaviours of the code that a reader might expect to be otherwise; the model follows the code:

- **Negative counts.** A negative count in a response is stored as it is; nothing rejects it.
- **Reload.** `loadConfig` does not rebuild the group registry. It puts each configured group over the old map, so groups missing from the new configuration remain. It also puts 0 for every configured server without clearing the other counts.
- **Group overflow.** A group's total is a Java `int` sum and wraps around on overflow.

## Model

| member | source | states |
|---|---|---|
| Plugin.NumberofOnline.constructor | src/main/java/org/a/numberofOnline/NumberofOnline.java:27-32 | Both maps start empty, the network total at 0, logging on, and nothing has been sent. |
| Plugin.NumberofOnline.LoadConfig | src/main/java/org/a/numberofOnline/NumberofOnline.java:67-89 | The server list, interval and logging flag are the configured ones. The count map becomes `ResetCounts` of the old one (configured servers at 0, others kept). The group map is the old map overwritten by the configured groups. |
| Plugin.NumberofOnline.PutConfiguredServers | src/main/java/org/a/numberofOnline/NumberofOnline.java:74-76 | The put loop leaves exactly `ResetCounts(old counts, servers)`, proved by a loop invariant over the processed prefix. |
| Plugin.NumberofOnline.PutGroups | src/main/java/org/a/numberofOnline/NumberofOnline.java:79-88 | The loop over the group names leaves the old group map overwritten by every configured group, whatever order the keys are visited in. |
| Plugin.NumberofOnline.RequestPlayerCount | src/main/java/org/a/numberofOnline/NumberofOnline.java:110-124 | With no player, nothing is sent and nothing is thrown. Otherwise, if the name encodes, exactly the request payload is appended to the sent log. If not, `EncodingTooLong` is thrown and nothing is sent. |
| Plugin.NumberofOnline.UpdatePlayerCounts | src/main/java/org/a/numberofOnline/NumberofOnline.java:100-108 | With no player, nothing is sent. With one, the log grows by exactly what `RequestBatch(RefreshTargets(configuredServers))` sends, and the method throws exactly when that batch does. |
| Plugin.NumberofOnline.OnPluginMessageReceived | src/main/java/org/a/numberofOnline/NumberofOnline.java:126-151 | The new (counts, network total) and the outcome are `Receive` of the old state, channel and message. |
| Plugin.NumberofOnline.GetServerPlayerCount | src/main/java/org/a/numberofOnline/NumberofOnline.java:154-156 | The stored count, or 0 for a server not in the map. |
| Plugin.NumberofOnline.GetTotalNetworkPlayers | src/main/java/org/a/numberofOnline/NumberofOnline.java:159-161 | The stored network total. |
| Plugin.NumberofOnline.GetGroupPlayerCount | src/main/java/org/a/numberofOnline/NumberofOnline.java:164-175 | The `int` accumulation loop returns `GroupCount`: 0 for an unknown group, otherwise the exact sum of the members' counts reduced to 32 bits. |
| Plugin.NumberofOnline.ToggleLogging | src/main/java/org/a/numberofOnline/NumberofOnline.java:178-182 | The logging flag is negated. Its frame lets it change nothing else, so no count changes. |
| Plugin.PlayerCountExpansion.constructor | src/main/java/org/a/numberofOnline/NumberofOnline.java:222-226 | The expansion answers from the plugin it was given. |
| Plugin.PlayerCountExpansion.OnPlaceholderRequest | src/main/java/org/a/numberofOnline/NumberofOnline.java:249-273 | The reply, computed through the plugin's getters, is `Placeholders.Resolve` of the identifier and the plugin's current state. |
| Placeholders.StartsWith | src/main/java/org/a/numberofOnline/NumberofOnline.java:261-267 | `startsWith` holds exactly when the identifier is at least as long as the prefix and is the prefix followed by the rest. |
| Placeholders.Resolve | src/main/java/org/a/numberofOnline/NumberofOnline.java:249-273 | The reply is `null` exactly when the identifier is neither `total_players` nor `network_total` and has neither the `server_` nor the `group_` prefix. Every other reply is a non-empty text. |
| Placeholders.NetworkTotalReply | src/main/java/org/a/numberofOnline/NumberofOnline.java:256-258 | `network_total` yields a decimal text that parses back to the network total. |
| Placeholders.ServerReply | src/main/java/org/a/numberofOnline/NumberofOnline.java:261-264 | `server_` + any name (the empty one too) yields the decimal text of that server's count, 0 when unknown. |
| Placeholders.GroupReply | src/main/java/org/a/numberofOnline/NumberofOnline.java:267-270 | `group_` + any name yields the decimal text of that group's count, 0 when the group is unknown. |
| Placeholders.UnknownReply | src/main/java/org/a/numberofOnline/NumberofOnline.java:251-272 | Any identifier that is not `total_players`, not `network_total` and has neither prefix yields `null`. |
| Placeholders.RepliesAreNumbers | src/main/java/org/a/numberofOnline/NumberofOnline.java:249-273 | Every non-null reply is the decimal text of a number. |
| Placeholders.PrefixOf | src/main/java/org/a/numberofOnline/NumberofOnline.java:261-262 | `prefix + name` starts with `prefix`, and `substring(prefix length)` recovers `name`. |
| PlayerCounts.Lookup | src/main/java/org/a/numberofOnline/NumberofOnline.java:155 | `getOrDefault(name, 0)`: a non-zero count always comes from a stored report for that server. |
| PlayerCounts.ExactSum | src/main/java/org/a/numberofOnline/NumberofOnline.java:171-173 | The exact sum over a member list of `n` entries lies between `n` times the least and `n` times the greatest `int`, which bounds how far the wrapped total can be off. |
| PlayerCounts.GroupCount | src/main/java/org/a/numberofOnline/NumberofOnline.java:164-175 | An unknown group counts 0. A known group counts a value congruent modulo 2^32 to the exact sum of its members. |
| PlayerCounts.Apply | src/main/java/org/a/numberofOnline/NumberofOnline.java:139-148 | A response for another sub-channel changes nothing. Only an `ALL` response can move the network total, and no server entry is ever removed. |
| PlayerCounts.Receive | src/main/java/org/a/numberofOnline/NumberofOnline.java:127-151 | A message on another channel is ignored without throwing. A message that throws leaves the store as it was. No server entry is ever removed. |
| PlayerCounts.ResetCounts | src/main/java/org/a/numberofOnline/NumberofOnline.java:74-76 | The keys afterwards are the old keys plus every configured server, and every configured server counts 0. |
| PlayerCounts.ReceiveServerCount | src/main/java/org/a/numberofOnline/NumberofOnline.java:135-148 | A well-formed response for a server other than `ALL` sets that server's count to the value sent, negatives included. It leaves every other server's count and the network total unchanged. |
| PlayerCounts.ReceiveNetworkTotal | src/main/java/org/a/numberofOnline/NumberofOnline.java:139-143 | A well-formed response for `ALL` sets the network total and changes nothing else. |
| PlayerCounts.ReceiveOtherSubchannel | src/main/java/org/a/numberofOnline/NumberofOnline.java:133-135 | A message with any other sub-channel tag changes nothing and does not throw, whatever follows the tag. |
| PlayerCounts.ReceiveTruncated | src/main/java/org/a/numberofOnline/NumberofOnline.java:132-149 | Every proper prefix of a well-formed response throws `EndOfInput` and leaves the state as it was. |
| PlayerCounts.ReceiveLoneSurrogate | src/main/java/org/a/numberofOnline/NumberofOnline.java:136 | A PlayerCount response whose server name is the lone surrogate U+D800 throws `UnpairedSurrogate` and leaves the store as it was. |
| PlayerCounts.ReceiveChangesOnlyOnPlayerCount | src/main/java/org/a/numberofOnline/NumberofOnline.java:127-151 | A call that throws changes nothing. The state changes only for a message on `BungeeCord` that decodes to a PlayerCount response, so other channels are ignored. |
| PlayerCounts.ApplyAllSnoc | src/main/java/org/a/numberofOnline/NumberofOnline.java:139-149 | Applying one more response after a sequence is applying the extended sequence. |
| PlayerCounts.LastResponseWins | src/main/java/org/a/numberofOnline/NumberofOnline.java:139-149 | After any sequence of responses, each server shows the count of the last response about it (or its old count). The network total is that of the last `ALL` response. |
| PlayerCounts.ExactSumAppend | src/main/java/org/a/numberofOnline/NumberofOnline.java:171-173 | The sum over a concatenated member list is the sum of the sums, so duplicates count once per occurrence. |
| PlayerCounts.ExactSumPermutation | src/main/java/org/a/numberofOnline/NumberofOnline.java:171-173 | Member lists with the same multiset of names have the same sum; the order of members does not matter. |
| PlayerCounts.ExactSumRemoveAt | src/main/java/org/a/numberofOnline/NumberofOnline.java:171-173 | Removing one member from the list removes exactly its count from the sum. |
| PlayerCounts.GroupCountValue | src/main/java/org/a/numberofOnline/NumberofOnline.java:164-175 | An unknown group counts 0. A group whose exact sum fits in an `int` counts exactly that sum. Otherwise it counts a value congruent to the sum modulo 2^32. |
| PlayerCounts.ExactSumBounds | src/main/java/org/a/numberofOnline/NumberofOnline.java:171-173 | With every member's count in `0..bound`, the sum lies in `0..|members| * bound`. |
| PlayerCounts.ResetCountsSnoc | src/main/java/org/a/numberofOnline/NumberofOnline.java:74-76 | Putting one more configured server extends the reset by a put of 0. |
| PlayerCounts.GroupsIn | src/main/java/org/a/numberofOnline/NumberofOnline.java:81-83 | The groups already put have exactly the names visited that are configured. |
| PlayerCounts.PutGroup | src/main/java/org/a/numberofOnline/NumberofOnline.java:81-83 | Putting one more configured group extends the set of groups put by that name. |
| PlayerCounts.ResetCountsEffect | src/main/java/org/a/numberofOnline/NumberofOnline.java:74-76 | After `loadConfig`, a configured server counts 0 and every other server keeps its count. No entry is removed. |
| PlayerCounts.LoadedGroupsEffect | src/main/java/org/a/numberofOnline/NumberofOnline.java:79-88 | After `loadConfig`, a configured group counts over its new member list. A group absent from the configuration keeps its old members. |
| Protocol.DecodeResponse | src/main/java/org/a/numberofOnline/NumberofOnline.java:132-137 | A message decoded as another sub-channel never carries the tag `PlayerCount`. |
| Protocol.RequestPayload | src/main/java/org/a/numberofOnline/NumberofOnline.java:120-122 | Building the request throws exactly when `writeUTF(server)` does, and the failure is `EncodingTooLong`. |
| Protocol.EncodeResponse | src/main/java/org/a/numberofOnline/NumberofOnline.java:133-137 | The proxy's response for a target can be written exactly when the target's name can. |
| Protocol.TagFieldIsWriteUtf | src/main/java/org/a/numberofOnline/NumberofOnline.java:121 | `writeUTF("PlayerCount")` cannot throw, and writes a zero byte, 11, and the ASCII codes. |
| Protocol.RequestReadsBack | src/main/java/org/a/numberofOnline/NumberofOnline.java:120-122 | Reading a request as the proxy does yields the tag `PlayerCount` and then exactly the server name, with no bytes left over. |
| Protocol.ResponseRoundTrip | src/main/java/org/a/numberofOnline/NumberofOnline.java:132-137 | A written response decodes to exactly its target and count, whatever bytes follow it. |
| Protocol.DecodeAfterTag | src/main/java/org/a/numberofOnline/NumberofOnline.java:135-137 | After the `PlayerCount` tag, decoding is a `readUTF` and then a `readInt`, and fails with the first failure. |
| Protocol.ResponseTruncated | src/main/java/org/a/numberofOnline/NumberofOnline.java:132-137 | Every proper prefix of a written response fails with `EndOfInput`. |
| Protocol.TruncatedInTag | src/main/java/org/a/numberofOnline/NumberofOnline.java:133 | A response cut inside the tag fails with `EndOfInput`. |
| Protocol.TruncatedInServer | src/main/java/org/a/numberofOnline/NumberofOnline.java:136 | A response cut inside the server name fails with `EndOfInput`. |
| Protocol.TruncatedInCount | src/main/java/org/a/numberofOnline/NumberofOnline.java:137 | A response cut inside the count fails with `EndOfInput`. |
| Protocol.OtherTagIgnoresBody | src/main/java/org/a/numberofOnline/NumberofOnline.java:133-135 | A message with another tag decodes to that tag alone, whatever follows it. |
| Protocol.RefreshTargets | src/main/java/org/a/numberofOnline/NumberofOnline.java:100-108 | The targets of a cycle are `ALL` followed by the configured servers in list order. |
| Protocol.Payloads | src/main/java/org/a/numberofOnline/NumberofOnline.java:105-106 | One request is built per target. |
| Protocol.SendInOrder | src/main/java/org/a/numberofOnline/NumberofOnline.java:105-107 | Sending a list of built requests in order either sends all of them without throwing, or throws and has sent fewer than all. |
| Protocol.SendThrowsAt | src/main/java/org/a/numberofOnline/NumberofOnline.java:105-107 | When sending throws, the request at the position after the last one sent is the one that threw, and its failure is the one reported. |
| Protocol.RequestBatch | src/main/java/org/a/numberofOnline/NumberofOnline.java:100-108 | A cycle over the targets either sends one payload per target or throws having sent fewer. |
| Protocol.RequestBatchThrowsAt | src/main/java/org/a/numberofOnline/NumberofOnline.java:100-124 | A cycle that throws does so with `EncodingTooLong` at the first target not sent, whose name `writeUTF` cannot encode. |
| Protocol.CycleStart | src/main/java/org/a/numberofOnline/NumberofOnline.java:100-102 | Before its first request, a cycle has sent nothing and not thrown. |
| Protocol.CycleStep | src/main/java/org/a/numberofOnline/NumberofOnline.java:100-108 | The k-th request of a cycle that has not thrown is either sent, with the cycle going on, or it throws. If it throws, the whole cycle ends with what was sent before it. |
| Protocol.CycleComplete | src/main/java/org/a/numberofOnline/NumberofOnline.java:105-108 | After the last server, the cycle's effect is the whole batch. |
| Protocol.SendAfterFailure | src/main/java/org/a/numberofOnline/NumberofOnline.java:105-107 | After a request threw, later requests send nothing. |
| Protocol.SendAfterPass | src/main/java/org/a/numberofOnline/NumberofOnline.java:105-107 | Sending two batches in a row is sending their concatenation when the first did not throw. |
| Protocol.SendStep | src/main/java/org/a/numberofOnline/NumberofOnline.java:105-107 | One step of sending: append the built payload, or stop with the exception and what was sent so far. |
| Protocol.RequestBatchAppend | src/main/java/org/a/numberofOnline/NumberofOnline.java:100-108 | A cycle over `xs + ys` is the cycle over `xs` then over `ys`, unless `xs` threw, in which case `ys` is never reached. |
| Protocol.RequestBatchComplete | src/main/java/org/a/numberofOnline/NumberofOnline.java:100-124 | When every target encodes, the batch sends one payload per target, in target order, each the target's request, and does not throw. |
| Protocol.SendAllSucceed | src/main/java/org/a/numberofOnline/NumberofOnline.java:105-107 | When every request builds, all of them are sent, in order. |
| Protocol.RefreshCycleSends | src/main/java/org/a/numberofOnline/NumberofOnline.java:100-124 | When every configured server's name encodes, a refresh sends exactly `1 + |servers|` payloads: the `ALL` request, then each server's request in list order. |
| Protocol.RequestBatchStops | src/main/java/org/a/numberofOnline/NumberofOnline.java:100-124 | A target whose name cannot be encoded ends the cycle with `EncodingTooLong`. The `i` targets before it have been sent and none from it on. |
| Protocol.AllServersEncodes | src/main/java/org/a/numberofOnline/NumberofOnline.java:102 | The `ALL` request can always be written. |
| DataIO.ToChars16 | src/main/java/org/a/numberofOnline/NumberofOnline.java:121-122 | A string takes at least one and at most two UTF-16 code units per character. |
| DataIO.FromChars16 | src/main/java/org/a/numberofOnline/NumberofOnline.java:133-136 | Reading code units as a string yields at least one character per two units and at most one per unit. The only failure is `UnpairedSurrogate`. |
| DataIO.EncodeChars16 | src/main/java/org/a/numberofOnline/NumberofOnline.java:121-122 | Modified UTF-8 takes one to three bytes per code unit. |
| DataIO.DecodeChars16 | src/main/java/org/a/numberofOnline/NumberofOnline.java:133-136 | Decoding yields at most one code unit per byte and at least one per three bytes. The only failure is `MalformedInput`. |
| DataIO.ReadUtf | src/main/java/org/a/numberofOnline/NumberofOnline.java:133-136 | `readUTF` of fewer than two bytes runs out of input. A successful read consumes the 2-byte length and at least one byte per character, and leaves a suffix of the input unread. |
| DataIO.WriteUtf | src/main/java/org/a/numberofOnline/NumberofOnline.java:121-122 | `writeUTF` throws `EncodingTooLong` exactly when the body exceeds 65535 bytes. Otherwise it writes 2 bytes more than the body. |
| DataIO.UtfRoundTrip | src/main/java/org/a/numberofOnline/NumberofOnline.java:133-136 | `readUTF` returns the string `writeUTF` wrote and leaves what follows unread. |
| DataIO.UtfTruncated | src/main/java/org/a/numberofOnline/NumberofOnline.java:133-136 | `readUTF` of a cut-short `writeUTF` encoding runs out of input. |
| DataIO.LoneSurrogateFails | src/main/java/org/a/numberofOnline/NumberofOnline.java:133-136 | `readUTF` of a field holding the single code unit U+D800 fails with `UnpairedSurrogate`. |
| DataIO.Chars16RoundTrip | src/main/java/org/a/numberofOnline/NumberofOnline.java:121-122 | A string's UTF-16 code units denote that string again. |
| DataIO.FromCharUnits | src/main/java/org/a/numberofOnline/NumberofOnline.java:133-136 | Decoding the code units of one character followed by anything yields that character first. |
| DataIO.Chars16CodecRoundTrip | src/main/java/org/a/numberofOnline/NumberofOnline.java:121-122 | Modified UTF-8 decoding inverts the encoding of any sequence of code units, NUL and surrogates included. |
| DataIO.DecodeChar16Group | src/main/java/org/a/numberofOnline/NumberofOnline.java:133-136 | The 1-, 2- or 3-byte group of a code unit decodes back to that unit. |
| DataIO.EncodeChar16 | src/main/java/org/a/numberofOnline/NumberofOnline.java:121-122 | A code unit takes one byte exactly when it is in 0x01-0x7F, and never more than three. |
| DataIO.AsciiBody | src/main/java/org/a/numberofOnline/NumberofOnline.java:121-122 | A string of characters 0x01-0x7F is encoded as one byte per character, each byte being the character's code. |
| DataIO.AsciiWriteUtf | src/main/java/org/a/numberofOnline/NumberofOnline.java:121-122 | A short string of such characters is written as a zero byte, its length, and its codes. |
| DataIO.ShortStringsEncode | src/main/java/org/a/numberofOnline/NumberofOnline.java:122 | A name of at most 10922 characters never makes `writeUTF` throw. |
| DataIO.WriteInt | src/main/java/org/a/numberofOnline/NumberofOnline.java:137 | The count is framed as four bytes. |
| DataIO.ReadInt | src/main/java/org/a/numberofOnline/NumberofOnline.java:137 | `readInt` runs out of input exactly when fewer than four bytes remain. Otherwise it consumes exactly four bytes. |
| DataIO.IntRoundTrip | src/main/java/org/a/numberofOnline/NumberofOnline.java:137 | `readInt` returns the `int` `writeInt` wrote, negatives included, and leaves what follows unread. |
| DataIO.ByteDigits | src/main/java/org/a/numberofOnline/NumberofOnline.java:137 | The four big-endian bytes recombine to the unsigned value they came from. |
| DataIO.IntTruncated | src/main/java/org/a/numberofOnline/NumberofOnline.java:137 | Fewer than four bytes of a count make `readInt` run out of input. |
| JavaInt.Wrap | src/main/java/org/a/numberofOnline/NumberofOnline.java:172 | Narrowing to `int` keeps the value modulo 2^32 and is the identity on the `int` range. |
| JavaInt.Add | src/main/java/org/a/numberofOnline/NumberofOnline.java:172 | Java `int` addition: the exact sum when it fits, otherwise 2^32 less (overflow) or more (underflow). |
| JavaInt.WrapCongruent | src/main/java/org/a/numberofOnline/NumberofOnline.java:172 | Integers congruent modulo 2^32 narrow to the same `int`. |
| JavaInt.AddWrap | src/main/java/org/a/numberofOnline/NumberofOnline.java:170-173 | Accumulating with wrap-around at every step gives the narrowing of the exact total. |
| JavaInt.Digits | src/main/java/org/a/numberofOnline/NumberofOnline.java:252-269 | The decimal digits of a natural number form a non-empty run of digits, with no leading zero. |
| JavaInt.ToDecimal | src/main/java/org/a/numberofOnline/NumberofOnline.java:252-269 | `String.valueOf(n)` is non-empty and starts with `-` exactly when `n` is negative. |
| JavaInt.ToDecimalRoundTrip | src/main/java/org/a/numberofOnline/NumberofOnline.java:252-269 | Parsing the text of `String.valueOf(n)` gives `n` back. |
| JavaInt.DigitsRoundTrip | src/main/java/org/a/numberofOnline/NumberofOnline.java:252-269 | The digits of `n` read back as `n`. |
| JavaInt.ToDecimalInjective | src/main/java/org/a/numberofOnline/NumberofOnline.java:252-269 | Different counts are shown as different texts. |

## Left out

- Plugin lifecycle is not modelled: `onEnable`/`onDisable`, channel registration, command registration and registering the expansion (NumberofOnline.java:34-65). They are host I/O.
- The refresh timer is not modelled (`startUpdateTask`, `runTaskTimerAsynchronously` and its tick arithmetic). It is scheduling machinery. `UpdatePlayerCounts` models one run of the timer's body.
- Concurrency is not modelled: `ConcurrentHashMap` and the cross-thread write of `totalNetworkPlayers`. The model is single-threaded.
- Sending and the online-player list are not modelled: `player.sendPluginMessage` becomes an append to `sentMessages`. `getOnlinePlayers` becomes the inputs `hasPlayer` and `onlinePlayers`.
- Plugin.NumberofOnline.UpdatePlayerCounts: `hasPlayer` is one value for the whole cycle. Java looks for an online player again in every `requestPlayerCount` call, so a player joining or leaving during a cycle is not modelled.
- Plugin.NumberofOnline.LoadConfig: reading the configuration file (`getConfig`, `getStringList`, `getConfigurationSection`) is not modelled. The model receives the parsed values, and a missing `groups` section is the empty map.
- Plugin.NumberofOnline.ToggleLogging: `getConfig().set` and `saveConfig` (persisting the flag) are not modelled.
- Logging output is not modelled (`getLogger()` calls). It has no effect on the state.
- The `total_players` placeholder's value is not modelled; it is the `onlinePlayers` input.
- Commands are not modelled: `onCommand`, its permission checks and help text, and `reloadConfig`. `LoadConfig` models what a reload does to the state.
- `canRegister`, `getIdentifier`, `getAuthor` and `getVersion` are not modelled. They are constant metadata.
- Plugin.NumberofOnline.constructor: `configuredServers` is `null` in Java until `loadConfig` runs. The model starts from the empty list, and `updateInterval` from 0.
- DataIO.UtfRoundTrip: the model's strings are Dafny strings of Unicode scalar values. A `readUTF` that yields a lone surrogate code unit (legal in a Java `String`) fails with `UnpairedSurrogate` in the model, and such strings cannot be written. Every string that has a Dafny counterpart is modelled exactly.
- Plugin.NumberofOnline.OnPluginMessageReceived: a message whose tag or server name decodes to a lone surrogate throws `UnpairedSurrogate` in the model (see `PlayerCounts.ReceiveLoneSurrogate`). Java would ignore such a message (for a tag) or store its count under that name (for a server).
- Guava's `ByteArrayDataInput` and `ByteArrayDataOutput` rethrow the checked `IOException`s as unchecked exceptions. The model keeps the underlying failure, such as `EndOfInput` or `MalformedInput`, and does not model the wrapping exception type.
