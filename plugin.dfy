/** The plugin object `NumberofOnline` with the state it keeps between calls, and its
    PlaceholderAPI expansion. Host services are parameters: whether any player is online
    to send through (`hasPlayer`), and how many players are online on this server. */
module Plugin {
  import opened Wrappers
  import opened JavaInt
  import opened DataIO
  import opened Protocol
  import opened PlayerCounts
  import Placeholders

  class NumberofOnline {
    var serverPlayerCounts: Counts
    var serverGroups: Groups
    var configuredServers: seq<string>
    var updateInterval: int32
    var totalNetworkPlayers: int32
    var loggingEnabled: bool
    /** Every payload handed to `sendPluginMessage` on the BungeeCord channel, oldest first. */
    var sentMessages: seq<seq<byte>>

    /** The part of the state that responses update. */
    function Snapshot(): Store
      reads this
    {
      Store(serverPlayerCounts, totalNetworkPlayers)
    }

    /** The plugin before `onEnable`: empty maps, network total 0, logging on. */
    constructor ()
      ensures serverPlayerCounts == map[] && serverGroups == map[] && configuredServers == []
      ensures updateInterval == 0 && totalNetworkPlayers == 0 && loggingEnabled
      ensures sentMessages == []
    {
      serverPlayerCounts := map[];
      serverGroups := map[];
      configuredServers := [];
      updateInterval := 0;
      totalNetworkPlayers := 0;
      loggingEnabled := true;
      sentMessages := [];
    }

    /** `loadConfig` with the configuration already read: `servers`, `update-interval`,
        `logging.enable` and the `groups` section (empty when the section is missing).
        Every configured server is put with count 0 and every configured group with its
        list; nothing is removed from either map. */
    method LoadConfig(servers: seq<string>, interval: int32, logging: bool, groups: Groups)
      modifies this`configuredServers, this`updateInterval, this`loggingEnabled
      modifies this`serverPlayerCounts, this`serverGroups
      ensures configuredServers == servers && updateInterval == interval && loggingEnabled == logging
      ensures serverPlayerCounts == ResetCounts(old(serverPlayerCounts), servers)
      ensures serverGroups == old(serverGroups) + groups
    {
      configuredServers := servers;
      updateInterval := interval;
      loggingEnabled := logging;

      PutConfiguredServers(servers);
      PutGroups(groups);
    }

    /** The loop of `loadConfig` that puts 0 for every configured server. */
    method PutConfiguredServers(servers: seq<string>)
      modifies this`serverPlayerCounts
      ensures serverPlayerCounts == ResetCounts(old(serverPlayerCounts), servers)
    {
      for i := 0 to |servers|
        invariant serverPlayerCounts == ResetCounts(old(serverPlayerCounts), servers[..i])
      {
        assert servers[..i + 1] == servers[..i] + [servers[i]];
        ResetCountsSnoc(old(serverPlayerCounts), servers[..i], servers[i]);
        serverPlayerCounts := serverPlayerCounts[servers[i] := 0];
      }
      assert servers[..|servers|] == servers;
    }

    /** The loop of `loadConfig` that puts every configured group. */
    method PutGroups(groups: Groups)
      modifies this`serverGroups
      ensures serverGroups == old(serverGroups) + groups
    {
      var pending := groups.Keys;
      while pending != {}
        invariant pending <= groups.Keys
        invariant serverGroups == old(serverGroups) + GroupsIn(groups, groups.Keys - pending)
        decreases pending
      {
        var g :| g in pending;
        PutGroup(old(serverGroups), groups, groups.Keys - pending, g);
        assert groups.Keys - pending + {g} == groups.Keys - (pending - {g});
        serverGroups := serverGroups[g := groups[g]];
        pending := pending - {g};
      }
      assert GroupsIn(groups, groups.Keys - {}) == groups;
    }

    /** `requestPlayerCount(server)`: with no player to send through, nothing happens;
        otherwise the request payload is sent, or `writeUTF` throws for a name whose
        encoding is too long and nothing is sent. */
    method RequestPlayerCount(server: string, hasPlayer: bool) returns (outcome: Outcome<Failure>)
      modifies this`sentMessages
      ensures !hasPlayer ==> outcome == Pass && sentMessages == old(sentMessages)
      ensures hasPlayer && RequestPayload(server).Success? ==>
        outcome == Pass && sentMessages == old(sentMessages) + [RequestPayload(server).value]
      ensures hasPlayer && RequestPayload(server).Failure? ==>
        outcome == Fail(EncodingTooLong) && sentMessages == old(sentMessages)
    {
      if !hasPlayer {
        return Pass;
      }
      var payload := RequestPayload(server);
      if payload.Failure? {
        return Fail(payload.error);
      }
      sentMessages := sentMessages + [payload.value];
      outcome := Pass;
    }

    /** `updatePlayerCounts`: a request for "ALL", then one per configured server in list
        order; an exception from one request ends the cycle. */
    method UpdatePlayerCounts(hasPlayer: bool) returns (outcome: Outcome<Failure>)
      modifies this`sentMessages
      ensures !hasPlayer ==> outcome == Pass && sentMessages == old(sentMessages)
      ensures hasPlayer ==> outcome == RequestBatch(RefreshTargets(configuredServers)).1
      ensures hasPlayer ==>
        sentMessages == old(sentMessages) + RequestBatch(RefreshTargets(configuredServers)).0
    {
      var servers := configuredServers;
      outcome := RequestPlayerCount(AllServers, hasPlayer);
      if hasPlayer {
        CycleStart(servers);
        CycleStep(servers, 0, AllServers);
      }
      var i := 0;
      while i < |servers|
        invariant 0 <= i <= |servers| && outcome == Pass
        invariant hasPlayer ==> CycleSoFar(servers, i + 1).1 == Pass
        invariant sentMessages == old(sentMessages) + if hasPlayer then CycleSoFar(servers, i + 1).0 else []
      {
        outcome := RequestPlayerCount(servers[i], hasPlayer);
        if hasPlayer {
          CycleStep(servers, i + 1, servers[i]);
          if outcome == Pass {
            AppendAssoc(old(sentMessages), CycleSoFar(servers, i + 1).0, [RequestPayload(servers[i]).value]);
          }
        }
        if outcome.Fail? {
          return;
        }
        i := i + 1;
      }
      if hasPlayer {
        CycleComplete(servers);
      }
    }

    /** `onPluginMessageReceived`: ignores other channels; reads the tag and, for
        "PlayerCount", the server and the count, all before writing anything; then sets
        the network total for "ALL" and the server's count otherwise. A read that fails
        throws out of the call. */
    method OnPluginMessageReceived(channel: string, message: seq<byte>) returns (outcome: Outcome<Failure>)
      modifies this`serverPlayerCounts, this`totalNetworkPlayers
      ensures (Snapshot(), outcome) == Receive(old(Snapshot()), channel, message)
    {
      if channel != Channel {
        return Pass;
      }
      var tagged := ReadUtf(message);
      if tagged.Failure? {
        return Fail(tagged.error);
      }
      var (subchannel, afterTag) := tagged.value;
      if subchannel == PlayerCountTag {
        var named := ReadUtf(afterTag);
        if named.Failure? {
          return Fail(named.error);
        }
        var (server, afterServer) := named.value;
        var counted := ReadInt(afterServer);
        if counted.Failure? {
          return Fail(counted.error);
        }
        var playerCount := counted.value.0;
        if server == AllServers {
          totalNetworkPlayers := playerCount;
        } else {
          serverPlayerCounts := serverPlayerCounts[server := playerCount];
        }
      }
      outcome := Pass;
    }

    /** `getServerPlayerCount`: the stored count, 0 for an unknown server. */
    method GetServerPlayerCount(serverName: string) returns (count: int32)
      ensures count == Lookup(serverPlayerCounts, serverName)
    {
      count := if serverName in serverPlayerCounts then serverPlayerCounts[serverName] else 0;
    }

    /** `getTotalNetworkPlayers`: the total of the last "ALL" response, 0 before one. */
    method GetTotalNetworkPlayers() returns (total: int32)
      ensures total == Snapshot().networkTotal
    {
      total := totalNetworkPlayers;
    }

    /** `getGroupPlayerCount`: 0 for an unknown group, otherwise the members' counts
        added up in an `int`, one term per listed member. */
    method GetGroupPlayerCount(groupName: string) returns (total: int32)
      ensures total == GroupCount(serverPlayerCounts, serverGroups, groupName)
    {
      if groupName !in serverGroups {
        return 0;
      }
      var servers := serverGroups[groupName];
      total := 0;
      for i := 0 to |servers|
        invariant total == Wrap(ExactSum(serverPlayerCounts, servers[..i]))
      {
        var count := GetServerPlayerCount(servers[i]);
        assert servers[..i + 1][..i] == servers[..i];
        AddWrap(ExactSum(serverPlayerCounts, servers[..i]), count);
        total := Add(total, count);
      }
      assert servers[..|servers|] == servers;
    }

    /** `toggleLogging`: flips the logging flag and nothing else. */
    method ToggleLogging()
      modifies this`loggingEnabled
      ensures loggingEnabled == !old(loggingEnabled)
    {
      loggingEnabled := !loggingEnabled;
    }
  }

  /** The PlaceholderAPI expansion, which answers from the plugin's current state. */
  class PlayerCountExpansion {
    const plugin: NumberofOnline

    constructor (plugin: NumberofOnline)
      ensures this.plugin == plugin
    {
      this.plugin := plugin;
    }

    /** `onPlaceholderRequest(player, identifier)`; `onlinePlayers` is the number of
        players on this server. */
    method OnPlaceholderRequest(identifier: string, onlinePlayers: nat) returns (reply: Option<string>)
      ensures reply == Placeholders.Resolve(identifier, onlinePlayers, plugin.Snapshot(), plugin.serverGroups)
    {
      if identifier == Placeholders.TotalPlayers {
        return Some(ToDecimal(onlinePlayers));
      }
      if identifier == Placeholders.NetworkTotal {
        var total := plugin.GetTotalNetworkPlayers();
        return Some(ToDecimal(total));
      }
      if Placeholders.StartsWith(identifier, Placeholders.ServerPrefix) {
        var count := plugin.GetServerPlayerCount(identifier[7..]);
        return Some(ToDecimal(count));
      }
      if Placeholders.StartsWith(identifier, Placeholders.GroupPrefix) {
        var count := plugin.GetGroupPlayerCount(identifier[6..]);
        return Some(ToDecimal(count));
      }
      return None;
    }
  }

  /** Appending to the log one message at a time or all at once gives the same log;
      stated as a lemma because the verifier does not re-associate concatenations of
      sequences on its own. */
  lemma AppendAssoc<T>(a: seq<T>, b: seq<T>, c: seq<T>)
    ensures a + (b + c) == (a + b) + c
  {
  }
}
