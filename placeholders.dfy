/** `PlayerCountExpansion.onPlaceholderRequest`: which text a placeholder identifier
    (the part after "%numberofonline_") is replaced with, or `None` for Java's `null`. */
module Placeholders {
  import opened Wrappers
  import opened JavaInt
  import opened PlayerCounts

  const TotalPlayers: string := "total_players"
  const NetworkTotal: string := "network_total"
  const ServerPrefix: string := "server_"
  const GroupPrefix: string := "group_"

  /** `s.startsWith(prefix)` */
  predicate StartsWith(s: string, prefix: string)
    ensures StartsWith(s, prefix) <==> |prefix| <= |s| && s == prefix + s[|prefix|..]
  {
    |prefix| <= |s| && s[..|prefix|] == prefix
  }

  /** The reply to `identifier`, tried in the source's order: the local online-player
      count, the network total, a server's count after "server_", a group's count after
      "group_", and otherwise `null`. `onlinePlayers` is the size of
      `getServer().getOnlinePlayers()`. */
  function Resolve(identifier: string, onlinePlayers: nat, store: Store, groups: Groups): (r: Option<string>)
    ensures r.None? <==> (identifier != TotalPlayers && identifier != NetworkTotal &&
      !StartsWith(identifier, ServerPrefix) && !StartsWith(identifier, GroupPrefix))
    ensures r.Some? ==> |r.value| >= 1
  {
    if identifier == TotalPlayers then Some(ToDecimal(onlinePlayers))
    else if identifier == NetworkTotal then Some(ToDecimal(store.networkTotal))
    else if StartsWith(identifier, ServerPrefix) then
      Some(ToDecimal(Lookup(store.counts, identifier[|ServerPrefix|..])))
    else if StartsWith(identifier, GroupPrefix) then
      Some(ToDecimal(GroupCount(store.counts, groups, identifier[|GroupPrefix|..])))
    else None
  }

  lemma PrefixOf(prefix: string, name: string)
    ensures StartsWith(prefix + name, prefix) && (prefix + name)[|prefix|..] == name
  {
    assert (prefix + name)[..|prefix|] == prefix;
  }

  /** "network_total" is replaced with the network total, in decimal. */
  lemma NetworkTotalReply(onlinePlayers: nat, store: Store, groups: Groups)
    ensures var r := Resolve(NetworkTotal, onlinePlayers, store, groups);
      r.Some? && ParseDecimal(r.value) == Some(store.networkTotal as int)
  {
    ToDecimalRoundTrip(store.networkTotal);
  }

  /** "server_" followed by any name, the empty one included, is replaced with that
      server's count, 0 if it never reported. */
  lemma ServerReply(name: string, onlinePlayers: nat, store: Store, groups: Groups)
    ensures var r := Resolve(ServerPrefix + name, onlinePlayers, store, groups);
      r.Some? && ParseDecimal(r.value) == Some(Lookup(store.counts, name) as int)
  {
    var id := ServerPrefix + name;
    PrefixOf(ServerPrefix, name);
    assert id[0] == 's';
    ToDecimalRoundTrip(Lookup(store.counts, name));
  }

  /** "group_" followed by a group name is replaced with that group's count, 0 if the
      group is not configured. */
  lemma GroupReply(name: string, onlinePlayers: nat, store: Store, groups: Groups)
    ensures var r := Resolve(GroupPrefix + name, onlinePlayers, store, groups);
      r.Some? && ParseDecimal(r.value) == Some(GroupCount(store.counts, groups, name) as int)
  {
    var id := GroupPrefix + name;
    PrefixOf(GroupPrefix, name);
    assert id[0] == 'g';
    ToDecimalRoundTrip(GroupCount(store.counts, groups, name));
  }

  /** Every other identifier, except "total_players", gets `null`. */
  lemma UnknownReply(identifier: string, onlinePlayers: nat, store: Store, groups: Groups)
    requires identifier != TotalPlayers && identifier != NetworkTotal
    requires forall name :: identifier != ServerPrefix + name && identifier != GroupPrefix + name
    ensures Resolve(identifier, onlinePlayers, store, groups) == None
  {
    var serverName := if |identifier| >= |ServerPrefix| then identifier[|ServerPrefix|..] else "";
    var groupName := if |identifier| >= |GroupPrefix| then identifier[|GroupPrefix|..] else "";
    assert identifier != ServerPrefix + serverName && identifier != GroupPrefix + groupName;
  }

  /** A reply is always the decimal text of some number, never an empty string. */
  lemma RepliesAreNumbers(identifier: string, onlinePlayers: nat, store: Store, groups: Groups)
    requires Resolve(identifier, onlinePlayers, store, groups).Some?
    ensures ParseDecimal(Resolve(identifier, onlinePlayers, store, groups).value).Some?
  {
    var r := Resolve(identifier, onlinePlayers, store, groups).value;
    if identifier == TotalPlayers {
      ToDecimalRoundTrip(onlinePlayers);
    } else if identifier == NetworkTotal {
      ToDecimalRoundTrip(store.networkTotal);
    } else if StartsWith(identifier, ServerPrefix) {
      ToDecimalRoundTrip(Lookup(store.counts, identifier[|ServerPrefix|..]));
    } else {
      ToDecimalRoundTrip(GroupCount(store.counts, groups, identifier[|GroupPrefix|..]));
    }
  }
}
