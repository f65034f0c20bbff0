/** The player-count cache as values: the per-server map, the network total, the group
    registry, and the functions that say what every operation of the plugin does to them. */
module PlayerCounts {
  import opened Wrappers
  import opened JavaInt
  import opened DataIO
  import opened Protocol

  /** `serverPlayerCounts`: server name to last reported count. */
  type Counts = map<string, int32>
  /** `serverGroups`: group name to its member servers, in configuration order. */
  type Groups = map<string, seq<string>>

  /** The two things a response can change. */
  datatype Store = Store(counts: Counts, networkTotal: int32)

  /** `getServerPlayerCount`: the stored count, or 0 for a server never heard of. */
  function Lookup(counts: Counts, server: string): (count: int32)
    ensures count != 0 ==> server in counts && counts[server] == count
  {
    if server in counts then counts[server] else 0
  }

  /** The exact (unbounded) sum of the members' counts, one term per list entry. */
  function ExactSum(counts: Counts, servers: seq<string>): (sum: int)
    ensures |servers| * MinInt <= sum <= |servers| * MaxInt
  {
    if servers == [] then 0
    else ExactSum(counts, servers[..|servers| - 1]) + Lookup(counts, servers[|servers| - 1])
  }

  /** `getGroupPlayerCount`: 0 for an unknown group, otherwise the members' sum as a
      Java `int` accumulates it, wrapping around on overflow. */
  function GroupCount(counts: Counts, groups: Groups, group: string): (count: int32)
    ensures group !in groups ==> count == 0
    ensures group in groups ==> (count - ExactSum(counts, groups[group])) % Modulus == 0
  {
    if group !in groups then 0 else Wrap(ExactSum(counts, groups[group]))
  }

  /** What a parsed response does to the store. */
  function Apply(store: Store, response: Response): (after: Store)
    ensures response.OtherSubchannel? ==> after == store
    ensures after.networkTotal != store.networkTotal ==> response.PlayerCount? && response.server == AllServers
    ensures store.counts.Keys <= after.counts.Keys
  {
    match response
    case PlayerCount(server, playerCount) =>
      if server == AllServers then store.(networkTotal := playerCount)
      else store.(counts := store.counts[server := playerCount])
    case OtherSubchannel(_) => store
  }

  /** `onPluginMessageReceived(channel, player, message)`: the new store, and whether the
      call threw. Messages on other channels are dropped unread; a message that does not
      decode throws before anything is written. */
  function Receive(store: Store, channel: string, message: seq<byte>): (r: (Store, Outcome<Failure>))
    ensures channel != Channel ==> r == (store, Pass)
    ensures r.1.Fail? ==> r.0 == store
    ensures store.counts.Keys <= r.0.counts.Keys
  {
    if channel != Channel then (store, Pass)
    else
      match DecodeResponse(message)
      case Failure(e) => (store, Fail(e))
      case Success(response) => (Apply(store, response), Pass)
  }

  /** The count map after `loadConfig` puts 0 for every configured server. */
  function ResetCounts(counts: Counts, servers: seq<string>): (reset: Counts)
    ensures reset.Keys == counts.Keys + set s | s in servers
    ensures forall s :: s in servers ==> reset[s] == 0
  {
    counts + map s | s in servers :: 0
  }

  // ------------------------------------------------------------------ receiving

  /** A PlayerCount response for a server other than "ALL" sets that server's count to
      the value sent (negative values included), and changes no other server's count
      and not the network total. */
  lemma ReceiveServerCount(store: Store, server: string, playerCount: int32, trailing: seq<byte>)
    requires server != AllServers && EncodeResponse(server, playerCount).Success?
    ensures var (after, outcome) := Receive(store, Channel, EncodeResponse(server, playerCount).value + trailing);
      outcome == Pass &&
      Lookup(after.counts, server) == playerCount &&
      (forall other :: other != server ==> Lookup(after.counts, other) == Lookup(store.counts, other)) &&
      after.networkTotal == store.networkTotal
  {
    ResponseRoundTrip(server, playerCount, trailing);
  }

  /** A PlayerCount response for "ALL" sets the network total and leaves every server's
      count as it was. */
  lemma ReceiveNetworkTotal(store: Store, playerCount: int32, trailing: seq<byte>)
    ensures EncodeResponse(AllServers, playerCount).Success?
    ensures Receive(store, Channel, EncodeResponse(AllServers, playerCount).value + trailing)
      == (store.(networkTotal := playerCount), Pass)
  {
    AsciiBody(AllServers);
    ResponseRoundTrip(AllServers, playerCount, trailing);
  }

  /** A message of another sub-channel changes nothing, whatever its body. */
  lemma ReceiveOtherSubchannel(store: Store, subchannel: string, body: seq<byte>)
    requires WriteUtf(subchannel).Success? && subchannel != PlayerCountTag
    ensures Receive(store, Channel, WriteUtf(subchannel).value + body) == (store, Pass)
  {
    OtherTagIgnoresBody(subchannel, body);
  }

  /** A truncated PlayerCount response throws and changes nothing. */
  lemma ReceiveTruncated(store: Store, server: string, playerCount: int32, k: nat)
    requires EncodeResponse(server, playerCount).Success?
    requires k < |EncodeResponse(server, playerCount).value|
    ensures Receive(store, Channel, EncodeResponse(server, playerCount).value[..k])
      == (store, Fail(EndOfInput))
  {
    ResponseTruncated(server, playerCount, k);
  }

  /** A PlayerCount response whose server name is a lone surrogate throws in the model
      and leaves the store as it was, where Java would store a count under that name. */
  lemma ReceiveLoneSurrogate(store: Store, rest: seq<byte>)
    ensures Receive(store, Channel, TagField + ([0x00, 0x03, 0xED, 0xA0, 0x80] + rest))
      == (store, Fail(UnpairedSurrogate))
  {
    DecodeAfterTag([0x00, 0x03, 0xED, 0xA0, 0x80] + rest);
    LoneSurrogateFails(rest);
  }

  /** Whatever arrives, a call that throws leaves the store as it was, and only a
      PlayerCount response on the BungeeCord channel changes it. */
  lemma ReceiveChangesOnlyOnPlayerCount(store: Store, channel: string, message: seq<byte>)
    ensures var (after, outcome) := Receive(store, channel, message);
      (outcome.Fail? ==> after == store) &&
      (after != store ==> channel == Channel && DecodeResponse(message).Success?
                          && DecodeResponse(message).value.PlayerCount?)
  {
  }

  // ------------------------------------------------------------------ last response wins

  /** The store after a sequence of responses has been applied in arrival order. */
  function ApplyAll(store: Store, responses: seq<Response>): Store
    decreases |responses|
  {
    if responses == [] then store else ApplyAll(Apply(store, responses[0]), responses[1..])
  }

  /** The count the last PlayerCount response for `target` carries, if there is one. */
  function LastCountFor(responses: seq<Response>, target: string): Option<int32>
  {
    if responses == [] then None
    else
      var last := responses[|responses| - 1];
      if last.PlayerCount? && last.server == target then Some(last.playerCount)
      else LastCountFor(responses[..|responses| - 1], target)
  }

  lemma {:induction false} ApplyAllSnoc(store: Store, responses: seq<Response>, r: Response)
    ensures ApplyAll(store, responses + [r]) == Apply(ApplyAll(store, responses), r)
    decreases |responses|
  {
    if responses != [] {
      assert (responses + [r])[1..] == responses[1..] + [r];
      ApplyAllSnoc(Apply(store, responses[0]), responses[1..], r);
    }
  }

  /** Responses overwrite in arrival order: each server shows the count of the last
      response about it (or its old count), and the network total is that of the last
      "ALL" response, whatever server updates came in between. */
  lemma {:induction false} LastResponseWins(store: Store, responses: seq<Response>, server: string)
    requires server != AllServers
    ensures Lookup(ApplyAll(store, responses).counts, server) ==
      match LastCountFor(responses, server)
      case Some(c) => c
      case None => Lookup(store.counts, server)
    ensures ApplyAll(store, responses).networkTotal ==
      match LastCountFor(responses, AllServers)
      case Some(c) => c
      case None => store.networkTotal
  {
    if responses != [] {
      var init := responses[..|responses| - 1];
      var last := responses[|responses| - 1];
      assert responses == init + [last];
      ApplyAllSnoc(store, init, last);
      LastResponseWins(store, init, server);
    }
  }

  // ------------------------------------------------------------------ groups

  lemma {:induction false} ExactSumAppend(counts: Counts, a: seq<string>, b: seq<string>)
    ensures ExactSum(counts, a + b) == ExactSum(counts, a) + ExactSum(counts, b)
  {
    if b == [] {
      assert a + b == a;
    } else {
      var init := b[..|b| - 1];
      assert (a + b)[..|a + b| - 1] == a + init;
      ExactSumAppend(counts, a, init);
    }
  }

  /** The sum depends only on how often each server is listed, not on the order: a
      server listed twice is counted twice. */
  lemma {:induction false} ExactSumPermutation(counts: Counts, a: seq<string>, b: seq<string>)
    requires multiset(a) == multiset(b)
    ensures ExactSum(counts, a) == ExactSum(counts, b)
    decreases |a|
  {
    if a == [] {
      assert |b| == |multiset(b)| == 0;
    } else {
      var x := a[|a| - 1];
      var init := a[..|a| - 1];
      assert a == init + [x];
      assert multiset(a) == multiset(init) + multiset{x};
      assert x in multiset(b);
      var i :| 0 <= i < |b| && b[i] == x;
      var rest := b[..i] + b[i + 1..];
      RemoveAt(b, i);
      MultisetCancel(multiset(init), multiset(rest), x);
      ExactSumPermutation(counts, init, rest);
      ExactSumRemoveAt(counts, b, i);
    }
  }

  lemma RemoveAt(b: seq<string>, i: nat)
    requires i < |b|
    ensures multiset(b) == multiset(b[..i] + b[i + 1..]) + multiset{b[i]}
  {
    assert b == b[..i] + [b[i]] + b[i + 1..];
  }

  lemma MultisetCancel(p: multiset<string>, q: multiset<string>, x: string)
    requires p + multiset{x} == q + multiset{x}
    ensures p == q
  {
    forall y ensures p[y] == q[y] {
      assert (p + multiset{x})[y] == (q + multiset{x})[y];
    }
  }

  lemma ExactSumRemoveAt(counts: Counts, b: seq<string>, i: nat)
    requires i < |b|
    ensures ExactSum(counts, b) == ExactSum(counts, b[..i] + b[i + 1..]) + Lookup(counts, b[i])
  {
    assert b == (b[..i] + [b[i]]) + b[i + 1..];
    ExactSumAppend(counts, b[..i] + [b[i]], b[i + 1..]);
    ExactSumAppend(counts, b[..i], [b[i]]);
    ExactSumAppend(counts, b[..i], b[i + 1..]);
    assert ExactSum(counts, [b[i]]) == Lookup(counts, b[i]);
  }

  /** When the exact sum fits in an `int`, the group count is that sum; otherwise it is
      the sum reduced to 32 bits, and never some other value. */
  lemma GroupCountValue(counts: Counts, groups: Groups, group: string)
    ensures group !in groups ==> GroupCount(counts, groups, group) == 0
    ensures group in groups && MinInt <= ExactSum(counts, groups[group]) <= MaxInt ==>
      GroupCount(counts, groups, group) == ExactSum(counts, groups[group])
    ensures group in groups ==>
      (GroupCount(counts, groups, group) - ExactSum(counts, groups[group])) % Modulus == 0
  {
  }

  /** Counts that are all zero or more and a group of fewer than 2^31 / (largest count)
      members cannot overflow; in particular a group of servers nobody reported yet
      counts 0. */
  lemma {:induction false} ExactSumBounds(counts: Counts, servers: seq<string>, bound: nat)
    requires forall s :: s in servers ==> 0 <= Lookup(counts, s) <= bound
    ensures 0 <= ExactSum(counts, servers) <= |servers| * bound
  {
    if servers != [] {
      var n := |servers|;
      ExactSumBounds(counts, servers[..n - 1], bound);
      assert (n - 1) * bound + bound == n * bound;
    }
  }

  // ------------------------------------------------------------------ configuration

  /** Putting one more configured server. */
  lemma ResetCountsSnoc(counts: Counts, servers: seq<string>, server: string)
    ensures ResetCounts(counts, servers + [server]) == ResetCounts(counts, servers)[server := 0]
  {
  }

  /** The configured groups whose names are in `names`. */
  function GroupsIn(loaded: Groups, names: set<string>): (r: Groups)
    ensures r.Keys == loaded.Keys * names
  {
    map g | g in loaded.Keys * names :: loaded[g]
  }

  /** Putting one more configured group. */
  lemma PutGroup(groups: Groups, loaded: Groups, names: set<string>, g: string)
    requires g in loaded
    ensures (groups + GroupsIn(loaded, names))[g := loaded[g]] == groups + GroupsIn(loaded, names + {g})
  {
  }

  /** After `loadConfig`, each configured server counts 0 and every other server keeps
      its count; nothing is removed. */
  lemma ResetCountsEffect(counts: Counts, servers: seq<string>, server: string)
    ensures Lookup(ResetCounts(counts, servers), server) ==
      if server in servers then 0 else Lookup(counts, server)
    ensures counts.Keys <= ResetCounts(counts, servers).Keys
  {
  }

  /** After `loadConfig` puts the configured groups, every configured group counts over
      its new member list at once, and a group left out of the configuration keeps its
      old members. */
  lemma LoadedGroupsEffect(counts: Counts, groups: Groups, loaded: Groups, group: string)
    ensures GroupCount(counts, groups + loaded, group) ==
      if group in loaded then Wrap(ExactSum(counts, loaded[group]))
      else GroupCount(counts, groups, group)
  {
  }
}
