/** The BungeeCord "PlayerCount" exchange: the request the plugin sends and the response
    it parses in `onPluginMessageReceived`. */
module Protocol {
  import opened Wrappers
  import opened JavaInt
  import opened DataIO

  /** The plugin-messaging channel both directions use. */
  const Channel: string := "BungeeCord"
  /** The sub-channel tag of a player-count request and of its response. */
  const PlayerCountTag: string := "PlayerCount"
  /** The target that asks for the whole network instead of one server. */
  const AllServers: string := "ALL"

  /** A parsed response: a player count for a target, or a message of some other
      sub-channel, of which only the tag is read. */
  datatype Response =
    | PlayerCount(server: string, playerCount: int32)
    | OtherSubchannel(subchannel: string)

  /** What `onPluginMessageReceived` reads from a message on the BungeeCord channel:
      `readUTF` for the tag and, for "PlayerCount" only, `readUTF` for the server and
      `readInt` for the count. Bytes after what is read are ignored. */
  function DecodeResponse(message: seq<byte>): (r: Result<Response, Failure>)
    ensures r.Success? && r.value.OtherSubchannel? ==> r.value.subchannel != PlayerCountTag
  {
    var tagged :- ReadUtf(message);
    if tagged.0 == PlayerCountTag then
      var named :- ReadUtf(tagged.1);
      var counted :- ReadInt(named.1);
      Success(PlayerCount(named.0, counted.0))
    else
      Success(OtherSubchannel(tagged.0))
  }

  /** The bytes of `writeUTF("PlayerCount")`: the length 11, then the ASCII code of each
      character (`TagFieldIsWriteUtf` shows it). */
  const TagField: seq<byte> := [0x00, 0x0B] + AsciiCodes(PlayerCountTag)

  /** The payload `requestPlayerCount(server)` sends: `writeUTF("PlayerCount")` then
      `writeUTF(server)`; the second write throws for a server name whose encoding is
      over 65535 bytes. */
  function RequestPayload(server: string): (r: Result<seq<byte>, Failure>)
    ensures r.Failure? <==> WriteUtf(server).Failure?
    ensures r.Failure? ==> r.error == EncodingTooLong
  {
    var target :- WriteUtf(server);
    Success(TagField + target)
  }

  /** The response the proxy writes for a request: the tag, the target and the count,
      as `writeUTF`, `writeUTF`, `writeInt`. */
  function EncodeResponse(server: string, playerCount: int32): (r: Result<seq<byte>, Failure>)
    ensures r.Failure? <==> WriteUtf(server).Failure?
  {
    var target :- WriteUtf(server);
    Success(TagField + target + WriteInt(playerCount))
  }

  /** `writeUTF("PlayerCount")` cannot throw, and writes `TagField`. */
  lemma TagFieldIsWriteUtf()
    ensures WriteUtf(PlayerCountTag) == Success(TagField)
  {
    AsciiWriteUtf(PlayerCountTag);
  }

  /** The request carries its target: reading it back as the proxy does yields the tag
      "PlayerCount" and then exactly the server name, with nothing left over. */
  lemma RequestReadsBack(server: string)
    requires RequestPayload(server).Success?
    ensures var p := RequestPayload(server).value;
      ReadUtf(p).Success? && ReadUtf(p).value.0 == PlayerCountTag &&
      ReadUtf(ReadUtf(p).value.1) == Success((server, []))
  {
    var target := WriteUtf(server).value;
    TagFieldIsWriteUtf();
    UtfRoundTrip(PlayerCountTag, target);
    UtfRoundTrip(server, []);
    assert target + [] == target;
  }

  /** A well-formed PlayerCount response decodes to exactly its target and count,
      whatever follows it. */
  lemma ResponseRoundTrip(server: string, playerCount: int32, trailing: seq<byte>)
    requires EncodeResponse(server, playerCount).Success?
    ensures DecodeResponse(EncodeResponse(server, playerCount).value + trailing)
      == Success(PlayerCount(server, playerCount))
  {
    var tag := TagField;
    var target := WriteUtf(server).value;
    var count := WriteInt(playerCount);
    var m := EncodeResponse(server, playerCount).value + trailing;
    assert m == tag + (target + (count + trailing));
    TagFieldIsWriteUtf();
    UtfRoundTrip(PlayerCountTag, target + (count + trailing));
    var afterTag := ReadUtf(m).value.1;
    assert afterTag == target + (count + trailing);
    UtfRoundTrip(server, count + trailing);
    var afterServer := ReadUtf(afterTag).value.1;
    assert afterServer == count + trailing;
    IntRoundTrip(playerCount, trailing);
  }

  /** After the "PlayerCount" tag, decoding is a `readUTF` and a `readInt`. */
  lemma DecodeAfterTag(rest: seq<byte>)
    ensures DecodeResponse(TagField + rest) ==
      match ReadUtf(rest)
      case Failure(e) => Failure(e)
      case Success(named) =>
        match ReadInt(named.1)
        case Failure(e) => Failure(e)
        case Success(counted) => Success(PlayerCount(named.0, counted.0))
  {
    TagFieldIsWriteUtf();
    UtfRoundTrip(PlayerCountTag, rest);
  }

  /** Any proper prefix of a well-formed PlayerCount response fails to decode with
      `EndOfInput`: the three reads come before anything is applied, so a truncated
      message is never half-applied. */
  lemma ResponseTruncated(server: string, playerCount: int32, k: nat)
    requires EncodeResponse(server, playerCount).Success?
    requires k < |EncodeResponse(server, playerCount).value|
    ensures DecodeResponse(EncodeResponse(server, playerCount).value[..k]) == Failure(EndOfInput)
  {
    var tag := TagField;
    var target := WriteUtf(server).value;
    var count := WriteInt(playerCount);
    var m := EncodeResponse(server, playerCount).value;
    assert m == tag + target + count;
    if k < |tag| {
      assert m[..k] == tag[..k];
      TruncatedInTag(k);
    } else if k < |tag| + |target| {
      assert m[..k] == tag + target[..k - |tag|];
      TruncatedInServer(server, k - |tag|);
    } else {
      var j := k - |tag| - |target|;
      assert m[..k] == tag + (target + count[..j]);
      TruncatedInCount(server, playerCount, j);
    }
  }

  lemma TruncatedInTag(k: nat)
    requires k < |TagField|
    ensures DecodeResponse(TagField[..k]) == Failure(EndOfInput)
  {
    TagFieldIsWriteUtf();
    UtfTruncated(PlayerCountTag, k);
  }

  lemma TruncatedInServer(server: string, k: nat)
    requires WriteUtf(server).Success? && k < |WriteUtf(server).value|
    ensures DecodeResponse(TagField + WriteUtf(server).value[..k]) == Failure(EndOfInput)
  {
    DecodeAfterTag(WriteUtf(server).value[..k]);
    UtfTruncated(server, k);
  }

  lemma TruncatedInCount(server: string, playerCount: int32, j: nat)
    requires WriteUtf(server).Success? && j < 4
    ensures DecodeResponse(TagField + (WriteUtf(server).value + WriteInt(playerCount)[..j]))
      == Failure(EndOfInput)
  {
    var target := WriteUtf(server).value;
    DecodeAfterTag(target + WriteInt(playerCount)[..j]);
    UtfRoundTrip(server, WriteInt(playerCount)[..j]);
    IntTruncated(playerCount, j);
  }

  /** A message whose tag is not "PlayerCount" is recognised from its tag alone; nothing
      after the tag needs to be well formed. */
  lemma OtherTagIgnoresBody(subchannel: string, body: seq<byte>)
    requires WriteUtf(subchannel).Success? && subchannel != PlayerCountTag
    ensures DecodeResponse(WriteUtf(subchannel).value + body) == Success(OtherSubchannel(subchannel))
  {
    UtfRoundTrip(subchannel, body);
  }

  // ------------------------------------------------------------------ a refresh cycle

  /** The targets `updatePlayerCounts` asks for: "ALL" first, then each configured server
      in list order. */
  function RefreshTargets(servers: seq<string>): (targets: seq<string>)
    ensures |targets| == 1 + |servers| && targets[0] == AllServers && targets[1..] == servers
  {
    [AllServers] + servers
  }

  /** What building the request for each target gives, in target order. */
  function Payloads(targets: seq<string>): (rs: seq<Result<seq<byte>, Failure>>)
    ensures |rs| == |targets|
  {
    seq(|targets|, i requires 0 <= i < |targets| => RequestPayload(targets[i]))
  }

  /** Sending built requests one after another: the payloads sent, and whether a request
      threw; the exception ends the cycle, so nothing after it is sent. */
  function SendInOrder(rs: seq<Result<seq<byte>, Failure>>): (r: (seq<seq<byte>>, Outcome<Failure>))
    ensures r.1.Pass? ==> |r.0| == |rs|
    ensures r.1.Fail? ==> |r.0| < |rs|
  {
    if rs == [] then ([], Pass)
    else
      match rs[0]
      case Failure(e) => ([], Fail(e))
      case Success(p) =>
        var rest := SendInOrder(rs[1..]);
        ([p] + rest.0, rest.1)
  }

  /** The payloads a refresh cycle over `targets` sends, and whether it threw. */
  function RequestBatch(targets: seq<string>): (r: (seq<seq<byte>>, Outcome<Failure>))
    ensures r.1.Pass? ==> |r.0| == |targets|
    ensures r.1.Fail? ==> |r.0| < |targets|
  {
    SendInOrder(Payloads(targets))
  }

  /** A send that throws stops at the request that threw: the payloads before it went
      out, and its own exception is the one reported. */
  lemma {:induction false} SendThrowsAt(rs: seq<Result<seq<byte>, Failure>>)
    ensures var (sent, outcome) := SendInOrder(rs);
      outcome.Fail? ==> |sent| < |rs| && rs[|sent|] == Failure(outcome.error)
  {
    if rs != [] && rs[0].Success? {
      SendThrowsAt(rs[1..]);
    }
  }

  /** A refresh cycle that throws does so at the first target whose name `writeUTF`
      cannot encode, and with `EncodingTooLong`. */
  lemma RequestBatchThrowsAt(targets: seq<string>)
    ensures var (sent, outcome) := RequestBatch(targets);
      outcome.Fail? ==>
        |sent| < |targets| && WriteUtf(targets[|sent|]).Failure? && outcome == Fail(EncodingTooLong)
  {
    SendThrowsAt(Payloads(targets));
  }

  /** What the first `k` requests of a refresh cycle over `servers` send. */
  function CycleSoFar(servers: seq<string>, k: nat): (seq<seq<byte>>, Outcome<Failure>)
    requires k <= |servers| + 1
  {
    SendInOrder(Payloads(RefreshTargets(servers))[..k])
  }

  /** Before its first request a cycle has sent nothing. */
  lemma CycleStart(servers: seq<string>)
    ensures CycleSoFar(servers, 0) == ([], Pass)
  {
    assert Payloads(RefreshTargets(servers))[..0] == [];
  }

  /** The request for the `k`-th target ("ALL" first, then the servers in list order) of
      a cycle that has not thrown yet: it is sent and the cycle goes on, or it throws and
      the whole cycle ends with what was sent before it. */
  lemma CycleStep(servers: seq<string>, k: nat, target: string)
    requires k <= |servers| && CycleSoFar(servers, k).1 == Pass
    requires target == if k == 0 then AllServers else servers[k - 1]
    ensures RequestPayload(target).Success? ==>
      CycleSoFar(servers, k + 1) == (CycleSoFar(servers, k).0 + [RequestPayload(target).value], Pass)
    ensures RequestPayload(target).Failure? ==>
      RequestBatch(RefreshTargets(servers)) == (CycleSoFar(servers, k).0, Fail(EncodingTooLong))
  {
    var targets := RefreshTargets(servers);
    assert k > 0 ==> targets[k] == targets[1..][k - 1];
    SendStep(Payloads(targets), k);
  }

  /** Once every target has been requested, the cycle is over. */
  lemma CycleComplete(servers: seq<string>)
    ensures CycleSoFar(servers, |servers| + 1) == RequestBatch(RefreshTargets(servers))
  {
    var rs := Payloads(RefreshTargets(servers));
    assert rs[..|servers| + 1] == rs;
  }

  /** After a request threw, later ones change nothing. */
  lemma {:induction false} SendAfterFailure(rs: seq<Result<seq<byte>, Failure>>, more: seq<Result<seq<byte>, Failure>>)
    requires SendInOrder(rs).1.Fail?
    ensures SendInOrder(rs + more) == SendInOrder(rs)
  {
    assert (rs + more)[0] == rs[0];
    assert (rs + more)[1..] == rs[1..] + more;
    if rs[0].Success? {
      SendAfterFailure(rs[1..], more);
    }
  }

  /** Sending `rs` and then `more` is sending `rs + more` when `rs` did not throw. */
  lemma {:induction false} SendAfterPass(rs: seq<Result<seq<byte>, Failure>>, more: seq<Result<seq<byte>, Failure>>)
    requires SendInOrder(rs).1.Pass?
    ensures SendInOrder(rs + more) == (SendInOrder(rs).0 + SendInOrder(more).0, SendInOrder(more).1)
  {
    if rs == [] {
      assert rs + more == more;
      assert [] + SendInOrder(more).0 == SendInOrder(more).0;
    } else {
      assert (rs + more)[0] == rs[0];
      assert (rs + more)[1..] == rs[1..] + more;
      SendAfterPass(rs[1..], more);
      var tail := SendInOrder(rs[1..]).0;
      assert [rs[0].value] + (tail + SendInOrder(more).0) == ([rs[0].value] + tail) + SendInOrder(more).0;
    }
  }

  /** Sending `xs` and then `ys` is sending `xs + ys`, unless `xs` already threw, in
      which case `ys` is never reached. */
  lemma RequestBatchAppend(xs: seq<string>, ys: seq<string>)
    ensures RequestBatch(xs + ys) ==
      if RequestBatch(xs).1.Fail? then RequestBatch(xs)
      else (RequestBatch(xs).0 + RequestBatch(ys).0, RequestBatch(ys).1)
  {
    assert Payloads(xs + ys) == Payloads(xs) + Payloads(ys);
    if RequestBatch(xs).1.Fail? {
      SendAfterFailure(Payloads(xs), Payloads(ys));
    } else {
      SendAfterPass(Payloads(xs), Payloads(ys));
    }
  }

  /** The `k`-th request of a cycle that has not thrown before it: it is sent and the
      cycle goes on, or it throws and the cycle ends with what was sent so far. */
  lemma SendStep(rs: seq<Result<seq<byte>, Failure>>, k: nat)
    requires k < |rs| && SendInOrder(rs[..k]).1 == Pass
    ensures rs[k].Success? ==>
      SendInOrder(rs[..k + 1]) == (SendInOrder(rs[..k]).0 + [rs[k].value], Pass)
    ensures rs[k].Failure? ==> SendInOrder(rs) == (SendInOrder(rs[..k]).0, Fail(rs[k].error))
  {
    var before := rs[..k];
    var upTo := rs[..k + 1];
    assert upTo == before + [rs[k]];
    SendAfterPass(before, [rs[k]]);
    SendOne(rs[k]);
    if rs[k].Failure? {
      var sent := SendInOrder(before).0;
      assert sent + [] == sent;  // SendAfterPass leaves the single failure's empty output appended
      SendStepThrows(rs, k, sent);
    }
  }

  /** A request that throws ends the cycle with what was sent before it. */
  lemma SendStepThrows(rs: seq<Result<seq<byte>, Failure>>, k: nat, sent: seq<seq<byte>>)
    requires k < |rs| && rs[k].Failure?
    requires SendInOrder(rs[..k + 1]) == (sent, Fail(rs[k].error))
    ensures SendInOrder(rs) == (sent, Fail(rs[k].error))
  {
    var upTo := rs[..k + 1];
    assert rs == upTo + rs[k + 1..];
    SendAfterFailure(upTo, rs[k + 1..]);
  }

  /** A single request is sent, or throws and sends nothing. */
  lemma SendOne(r: Result<seq<byte>, Failure>)
    ensures r.Success? ==> SendInOrder([r]) == ([r.value], Pass)
    ensures r.Failure? ==> SendInOrder([r]) == ([], Fail(r.error))
  {
    var single: seq<Result<seq<byte>, Failure>> := [r];
    assert single[0] == r && single[1..] == [];
    if r.Success? {
      assert [r.value] + [] == [r.value];
    }
  }

  /** When every target can be encoded, a cycle sends exactly one payload per target, in
      target order, each reading back to its target. */
  lemma RequestBatchComplete(targets: seq<string>)
    requires forall i :: 0 <= i < |targets| ==> WriteUtf(targets[i]).Success?
    ensures RequestBatch(targets).1 == Pass
    ensures |RequestBatch(targets).0| == |targets|
    ensures forall i :: 0 <= i < |targets| ==>
      RequestPayload(targets[i]).Success? && RequestBatch(targets).0[i] == RequestPayload(targets[i]).value
  {
    SendAllSucceed(Payloads(targets));
  }

  lemma {:induction false} SendAllSucceed(rs: seq<Result<seq<byte>, Failure>>)
    requires forall i :: 0 <= i < |rs| ==> rs[i].Success?
    ensures SendInOrder(rs).1 == Pass && |SendInOrder(rs).0| == |rs|
    ensures forall i :: 0 <= i < |rs| ==> SendInOrder(rs).0[i] == rs[i].value
  {
    if rs != [] {
      SendAllSucceed(rs[1..]);
      forall i | 0 < i < |rs| ensures SendInOrder(rs).0[i] == rs[i].value {
        assert rs[1..][i - 1] == rs[i];
      }
    }
  }

  /** When every configured server name can be encoded, a refresh cycle sends exactly
      `1 + |servers|` payloads: the "ALL" request first, then one request per server in
      list order. */
  lemma RefreshCycleSends(servers: seq<string>)
    requires forall i :: 0 <= i < |servers| ==> WriteUtf(servers[i]).Success?
    ensures RequestPayload(AllServers).Success?
    ensures var (sent, outcome) := RequestBatch(RefreshTargets(servers));
      outcome == Pass && |sent| == 1 + |servers| &&
      sent[0] == RequestPayload(AllServers).value &&
      forall i :: 0 <= i < |servers| ==>
        RequestPayload(servers[i]).Success? && sent[i + 1] == RequestPayload(servers[i]).value
  {
    var targets := RefreshTargets(servers);
    AllServersEncodes();
    forall i | 0 <= i < |targets| ensures WriteUtf(targets[i]).Success? {
      if i > 0 {
        assert targets[i] == targets[1..][i - 1];
      }
    }
    RequestBatchComplete(targets);
    forall i | 0 <= i < |servers| ensures targets[i + 1] == servers[i] {
      assert targets[i + 1] == targets[1..][i];
    }
  }

  /** A target whose name cannot be encoded ends the cycle: the targets before it have
      been sent and none from it on. */
  lemma RequestBatchStops(targets: seq<string>, i: nat)
    requires i < |targets| && WriteUtf(targets[i]).Failure?
    requires forall j :: 0 <= j < i ==> WriteUtf(targets[j]).Success?
    ensures RequestBatch(targets) == (RequestBatch(targets[..i]).0, Fail(EncodingTooLong))
    ensures |RequestBatch(targets).0| == i
  {
    var rs := Payloads(targets);
    assert rs[..i] == Payloads(targets[..i]);
    SendAllSucceed(rs[..i]);
    SendStep(rs, i);
  }

  /** The "ALL" request can always be encoded. */
  lemma AllServersEncodes()
    ensures WriteUtf(AllServers).Success?
  {
    AsciiBody(AllServers);
  }
}
