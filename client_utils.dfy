/** The modellable core of fabric-client/lib/client-utils.js: the request
    validators, the chaincode-type mapping, rank-based peer selection
    (`discoverBestPeer`) and the folding of settled proposal results in
    `sendPeersProposal`. Protobuf building, signing, timestamps and the
    promise machinery are not modelled. */
module ClientUtils {
  import opened Wrappers
  import opened Js
  import Seqs
  import StatisticalModel
  import StringLib

  // ---------------------------------------------------------------------------
  // Request validation

  /** The fields of a proposal or install request that the validators read. */
  datatype Request = Request(chaincodeId: Value, txId: Value, chaincodeVersion: Value)

  const MissingRequestMessage: string := "Missing input request object on the proposal request"
  const MissingChaincodeIdMessage: string := "Missing \"chaincodeId\" parameter in the proposal request"
  const MissingTxIdMessage: string := "Missing \"txId\" parameter in the proposal request"
  const MissingChaincodeVersionMessage: string := "Missing \"chaincodeVersion\" parameter in the proposal request"

  /** `checkProposalRequest(request, skip)`: `None` (the source's `null`) when
      the request is usable, otherwise the message for the first check that
      fails, in the order request, `chaincodeId`, `txId`. A `None` request
      stands for `undefined` or `null`. */
  function CheckProposalRequest(request: Option<Request>, skip: Value): (r: Option<string>)
    ensures r.None? <==>
              request.Some? && Truthy(request.value.chaincodeId) &&
              (Truthy(request.value.txId) || Truthy(skip))
    ensures request.None? ==> r == Some(MissingRequestMessage)
    ensures request.Some? && !Truthy(request.value.chaincodeId) ==> r == Some(MissingChaincodeIdMessage)
    ensures r == Some(MissingTxIdMessage) <==>
              request.Some? && Truthy(request.value.chaincodeId) &&
              !Truthy(request.value.txId) && !Truthy(skip)
  {
    if request.Some? then
      if !Truthy(request.value.chaincodeId) then Some(MissingChaincodeIdMessage)
      else if !Truthy(request.value.txId) && !Truthy(skip) then Some(MissingTxIdMessage)
      else None
    else Some(MissingRequestMessage)
  }

  /** `checkInstallRequest(request)`: `None` exactly when the request is
      present with a truthy `chaincodeVersion`. */
  function CheckInstallRequest(request: Option<Request>): (r: Option<string>)
    ensures r.None? <==> request.Some? && Truthy(request.value.chaincodeVersion)
    ensures request.None? ==> r == Some(MissingRequestMessage)
    ensures request.Some? && !Truthy(request.value.chaincodeVersion) ==> r == Some(MissingChaincodeVersionMessage)
  {
    if request.Some? then
      if !Truthy(request.value.chaincodeVersion) then Some(MissingChaincodeVersionMessage)
      else None
    else Some(MissingRequestMessage)
  }

  /** The skip flag only ever silences the `txId` check. */
  lemma SkipOnlyAffectsTxId(request: Option<Request>, skip: Value)
    ensures CheckProposalRequest(request, skip) == CheckProposalRequest(request, Bool(false)) ||
            (CheckProposalRequest(request, Bool(false)) == Some(MissingTxIdMessage) &&
             CheckProposalRequest(request, skip) == None)
  {
  }

  // ---------------------------------------------------------------------------
  // Chaincode type

  /** The values of `ChaincodeSpec.Type` that `translateCCType` can return. */
  datatype ChaincodeType = GOLANG | CAR | JAVA | NODE

  /** The lower-case name each chaincode type is requested by. */
  function TypeName(t: ChaincodeType): string
  {
    match t
    case GOLANG => "golang"
    case CAR => "car"
    case JAVA => "java"
    case NODE => "node"
  }

  /** `translateCCType(type)`: a missing or empty type means `'golang'`; the
      name is lower-cased; `'car'`, `'java'` and `'node'` select their type and
      every other name falls through to GOLANG. `None` stands for `undefined`
      or `null`. */
  function TranslateCCType(ccType: Option<string>): (r: ChaincodeType)
    ensures r == CAR <==> ccType.Some? && ToLower(ccType.value) == "car"
    ensures r == JAVA <==> ccType.Some? && ToLower(ccType.value) == "java"
    ensures r == NODE <==> ccType.Some? && ToLower(ccType.value) == "node"
  {
    var chaincodeType := if ccType.Some? && ccType.value != "" then ccType.value else "golang";
    var lower := ToLower(chaincodeType);
    assert ccType.Some? && ccType.value == "" ==> ToLower(ccType.value) == "";
    if lower == "car" then CAR
    else if lower == "java" then JAVA
    else if lower == "node" then NODE
    else GOLANG
  }

  /** Every type is selected by its own name, in lower or in upper case. */
  lemma TranslateTypeName(t: ChaincodeType)
    ensures TranslateCCType(Some(TypeName(t))) == t
    ensures TranslateCCType(Some(ToUpper(TypeName(t)))) == t
  {
    var name := TypeName(t);
    ToLowerToUpper(name);
    assert ToLower(name) == name;
    match t
    case GOLANG =>
      assert ToLower(ToUpper(name)) == "golang";
    case CAR =>
    case JAVA =>
    case NODE =>
  }

  /** The mapping does not depend on letter case. */
  lemma TranslateIgnoresCase(s: string)
    ensures TranslateCCType(Some(s)) == TranslateCCType(Some(ToLower(s)))
  {
    ToLowerIdempotent(s);
  }

  // ---------------------------------------------------------------------------
  // Peers

  /** A peer, as far as this core sees it: its URL (`getUrl()`), with `""`
      standing for a missing or otherwise falsy URL. Peers are objects: the
      selection returns the very objects it was given. */
  class Peer {
    const url: string

    constructor (url: string)
      ensures this.url == url
    {
      this.url := url;
    }
  }

  /** The `peers` argument: an array, or one bare peer. */
  datatype PeerArg = Many(peers: seq<Peer>) | Single(peer: Peer)

  /** `Array.isArray(peers) ? peers : [peers]`. */
  function TargetsOf(arg: PeerArg): seq<Peer>
  {
    match arg
    case Many(peers) => peers
    case Single(peer) => [peer]
  }

  function Urls(targets: seq<Peer>): (r: seq<string>)
    ensures |r| == |targets|
    ensures forall i :: 0 <= i < |targets| ==> r[i] == targets[i].url
  {
    seq(|targets|, i requires 0 <= i < |targets| => targets[i].url)
  }

  predicate AllHaveUrls(targets: seq<Peer>)
  {
    forall i :: 0 <= i < |targets| ==> targets[i].url != ""
  }

  predicate DistinctUrls(targets: seq<Peer>)
  {
    forall i, j :: 0 <= i < j < |targets| ==> targets[i].url != targets[j].url
  }

  // ---------------------------------------------------------------------------
  // Ranking

  /** The role a ranking is asked for: `EVENT_SOURCE_ROLE`,
      `ENDORSING_PEER_ROLE`, or anything else (including none), in which case
      the model is run without a role. */
  datatype RoleArg = EventSource | EndorsingPeer | Unspecified

  /** What the call to `runModel` did: it threw, or it returned a list
      (`None` stands for a returned `undefined` or `null`). */
  datatype ModelOutcome = Threw(message: string) | Returned(ranking: Option<seq<string>>)

  /** The statistical model as `discoverBestPeer` sees it: a function of the
      URL list and the role. */
  type RankingModel = (seq<string>, RoleArg) -> ModelOutcome

  const MissingUrlMessage: string := "Peer URL is missing"
  const EmptyPeersMessage: string := "Parameter peers should not be null or empty."

  /** The URL list the peers are mapped back from: the model's list, or the
      original URLs when the model threw or returned nothing or an empty list. */
  function Ranked(outcome: ModelOutcome, urls: seq<string>): (r: seq<string>)
    ensures outcome.Returned? && outcome.ranking.Some? && outcome.ranking.value != [] ==>
              r == outcome.ranking.value
    ensures outcome.Threw? || outcome.ranking.None? || outcome.ranking.value == [] ==> r == urls
    ensures r == [] ==> urls == []
  {
    match outcome
    case Threw(_) => urls
    case Returned(ranking) =>
      if ranking.None? || |ranking.value| < 1 then urls else ranking.value
  }

  /** The targets whose URL is `url`, in target order (one pass of the inner
      loop). */
  function WithUrl(url: string, targets: seq<Peer>): (r: seq<Peer>)
    ensures |r| <= |targets|
    decreases |targets|
  {
    if targets == [] then []
    else
      var init, last := targets[..|targets| - 1], targets[|targets| - 1];
      WithUrl(url, init) + (if last.url == url then [last] else [])
  }

  /** For each ranked URL in turn, every target with exactly that URL. */
  function MapBack(ranked: seq<string>, targets: seq<Peer>): seq<Peer>
    decreases |ranked|
  {
    if ranked == [] then []
    else MapBack(ranked[..|ranked| - 1], targets) + WithUrl(ranked[|ranked| - 1], targets)
  }

  /** What `discoverBestPeer(peers, role)` returns or throws, given the model. */
  function SelectPeers(arg: PeerArg, role: RoleArg, model: RankingModel): Result<seq<Peer>, string>
  {
    var targets := TargetsOf(arg);
    if |targets| > 1 then
      if !AllHaveUrls(targets) then Failure(MissingUrlMessage)
      else
        var urls := Urls(targets);
        Success(MapBack(Ranked(model(urls, role), urls), targets))
    else if |targets| > 0 then Success(targets)
    else Failure(EmptyPeersMessage)
  }

  /** The `peerList` loop of `discoverBestPeer`: every target's URL in order,
      or the `'Peer URL is missing'` error at the first target without one. */
  method CollectUrls(targets: seq<Peer>) returns (r: Result<seq<string>, string>)
    ensures AllHaveUrls(targets) ==> r == Success(Urls(targets))
    ensures !AllHaveUrls(targets) ==> r == Failure(MissingUrlMessage)
  {
    var peerList: seq<string> := [];
    for i := 0 to |targets|
      invariant peerList == Urls(targets[..i])
      invariant AllHaveUrls(targets[..i])
    {
      if targets[i].url == "" {
        return Failure(MissingUrlMessage);
      }
      peerList := peerList + [targets[i].url];
    }
    assert targets[..|targets|] == targets;
    return Success(peerList);
  }

  /** The `u_peers` loop of `discoverBestPeer`: for each ranked URL in turn,
      push every target whose URL equals it. */
  method PushRanked(uPeerList: seq<string>, targets: seq<Peer>) returns (uPeers: seq<Peer>)
    ensures uPeers == MapBack(uPeerList, targets)
  {
    uPeers := [];
    for i := 0 to |uPeerList|
      invariant uPeers == MapBack(uPeerList[..i], targets)
    {
      var url := uPeerList[i];
      for j := 0 to |targets|
        invariant uPeers == MapBack(uPeerList[..i], targets) + WithUrl(url, targets[..j])
      {
        assert targets[..j + 1][..j] == targets[..j];
        if url == targets[j].url {
          uPeers := uPeers + [targets[j]];
        }
      }
      assert uPeerList[..i + 1][..i] == uPeerList[..i];
      assert targets[..|targets|] == targets;
    }
    assert uPeerList[..|uPeerList|] == uPeerList;
  }

  /** `discoverBestPeer`: collect the URLs (throwing at the first missing one),
      run the model with the fallback to the original list, then map the
      ranked URLs back to the targets. */
  method DiscoverBestPeer(arg: PeerArg, role: RoleArg, model: RankingModel)
    returns (r: Result<seq<Peer>, string>)
    ensures r == SelectPeers(arg, role, model)
  {
    var targets := TargetsOf(arg);
    if |targets| > 1 {
      var peerList := CollectUrls(targets);
      if peerList.Failure? {
        return Failure(peerList.error);
      }
      var uPeerList: seq<string>;
      match model(peerList.value, role) {
        case Threw(_) =>
          uPeerList := peerList.value;
        case Returned(ranking) =>
          if ranking.None? || |ranking.value| < 1 {
            uPeerList := peerList.value;
          } else {
            uPeerList := ranking.value;
          }
      }
      var uPeers := PushRanked(uPeerList, targets);
      return Success(uPeers);
    } else if |targets| > 0 {
      return Success(targets);
    } else {
      return Failure(EmptyPeersMessage);
    }
  }

  // ---------------------------------------------------------------------------
  // Properties of the selection

  /** A pass of the inner loop picks exactly the targets with that URL. */
  lemma {:induction false} WithUrlMembers(url: string, targets: seq<Peer>, p: Peer)
    ensures p in WithUrl(url, targets) <==> p in targets && p.url == url
    decreases |targets|
  {
    if targets != [] {
      var init := targets[..|targets| - 1];
      assert targets == init + [targets[|targets| - 1]];
      WithUrlMembers(url, init, p);
    }
  }

  /** A peer is selected exactly when it is a target whose URL is ranked:
      every output element is an input target, and targets whose URL the
      ranking leaves out are omitted. */
  lemma {:induction false} MapBackMembers(ranked: seq<string>, targets: seq<Peer>, p: Peer)
    ensures p in MapBack(ranked, targets) <==> p in targets && p.url in ranked
    decreases |ranked|
  {
    if ranked != [] {
      var init, last := ranked[..|ranked| - 1], ranked[|ranked| - 1];
      assert ranked == init + [last];
      MapBackMembers(init, targets, p);
      WithUrlMembers(last, targets, p);
    }
  }

  /** The output follows the ranking's order: the peers of a later ranked URL
      all come after those of an earlier one. */
  lemma {:induction false} MapBackAppend(r1: seq<string>, r2: seq<string>, targets: seq<Peer>)
    ensures MapBack(r1 + r2, targets) == MapBack(r1, targets) + MapBack(r2, targets)
    decreases |r2|
  {
    if r2 == [] {
      assert r1 + r2 == r1;
    } else {
      var init, last := r2[..|r2| - 1], r2[|r2| - 1];
      var r := r1 + r2;
      assert r[..|r| - 1] == r1 + init && r[|r| - 1] == last;
      MapBackAppend(r1, init, targets);
      var a, b, c := MapBack(r1, targets), MapBack(init, targets), WithUrl(last, targets);
      assert MapBack(r, targets) == MapBack(r1 + init, targets) + c;
      Seqs.ConcatAssoc(a, b, c);
    }
  }

  /** With distinct URLs, the first `m` targets hold target `k`'s URL once if
      `k < m` and not at all otherwise. */
  lemma {:induction false} WithUrlDistinctPrefix(targets: seq<Peer>, k: nat, m: nat)
    requires DistinctUrls(targets)
    requires k < |targets| && m <= |targets|
    ensures WithUrl(targets[k].url, targets[..m]) == if k < m then [targets[k]] else []
    decreases m
  {
    if m > 0 {
      assert targets[..m][..m - 1] == targets[..m - 1];
      WithUrlDistinctPrefix(targets, k, m - 1);
    }
  }

  /** With distinct URLs, a ranked URL picks exactly the one target that has it. */
  lemma WithUrlDistinct(targets: seq<Peer>, k: nat)
    requires DistinctUrls(targets) && k < |targets|
    ensures WithUrl(targets[k].url, targets) == [targets[k]]
  {
    WithUrlDistinctPrefix(targets, k, |targets|);
    assert targets[..|targets|] == targets;
  }

  /** With distinct URLs, a ranking made of target URLs selects, position by
      position, the target with that URL. */
  lemma {:induction false} MapBackFollowsRanking(ranked: seq<string>, targets: seq<Peer>)
    requires DistinctUrls(targets)
    requires forall u :: u in ranked ==> u in Urls(targets)
    ensures |MapBack(ranked, targets)| == |ranked|
    ensures forall k :: 0 <= k < |ranked| ==>
              MapBack(ranked, targets)[k].url == ranked[k] && MapBack(ranked, targets)[k] in targets
    decreases |ranked|
  {
    if ranked != [] {
      var init, last := ranked[..|ranked| - 1], ranked[|ranked| - 1];
      var out := MapBack(ranked, targets);
      assert forall u :: u in init ==> u in ranked;
      MapBackFollowsRanking(init, targets);
      var prev := MapBack(init, targets);
      assert last in ranked;
      var j :| 0 <= j < |targets| && Urls(targets)[j] == last;
      WithUrlDistinct(targets, j);
      assert out == prev + [targets[j]];
      FollowsSnoc(prev, targets[j], init, ranked, targets);
    }
  }

  /** Appending a target with the next ranked URL keeps the selection in step
      with the ranking. */
  lemma FollowsSnoc(prev: seq<Peer>, next: Peer, init: seq<string>, ranked: seq<string>, targets: seq<Peer>)
    requires |ranked| == |prev| + 1 && init == ranked[..|prev|]
    requires next.url == ranked[|prev|] && next in targets
    requires forall k :: 0 <= k < |prev| ==> prev[k].url == init[k] && prev[k] in targets
    ensures forall k :: 0 <= k < |ranked| ==> (prev + [next])[k].url == ranked[k] && (prev + [next])[k] in targets
  {
  }

  /** With distinct URLs, mapping the original URL list back gives exactly the
      targets, in input order. */
  lemma MapBackIdentity(targets: seq<Peer>)
    requires DistinctUrls(targets)
    ensures MapBack(Urls(targets), targets) == targets
  {
    MapBackIdentityPrefix(targets, |targets|);
    assert Urls(targets)[..|targets|] == Urls(targets);
    assert targets[..|targets|] == targets;
  }

  /** The same for the first `m` URLs and the first `m` targets. */
  lemma {:induction false} MapBackIdentityPrefix(targets: seq<Peer>, m: nat)
    requires DistinctUrls(targets) && m <= |targets|
    ensures MapBack(Urls(targets)[..m], targets) == targets[..m]
    decreases m
  {
    if m > 0 {
      var urls := Urls(targets)[..m];
      assert urls[..m - 1] == Urls(targets)[..m - 1] && urls[m - 1] == targets[m - 1].url;
      MapBackIdentityPrefix(targets, m - 1);
      WithUrlDistinct(targets, m - 1);
      assert targets[..m] == targets[..m - 1] + [targets[m - 1]];
    }
  }

  /** Short inputs never reach the model: no peers throws, one peer (an
      array of one or a bare peer) comes back as it is, whatever the model. */
  lemma SelectShortInput(arg: PeerArg, role: RoleArg, model: RankingModel)
    requires |TargetsOf(arg)| <= 1
    ensures TargetsOf(arg) == [] ==> SelectPeers(arg, role, model) == Failure(EmptyPeersMessage)
    ensures |TargetsOf(arg)| == 1 ==> SelectPeers(arg, role, model) == Success(TargetsOf(arg))
    ensures arg.Single? ==> SelectPeers(arg, role, model) == Success([arg.peer])
    ensures forall other: RankingModel :: SelectPeers(arg, role, other) == SelectPeers(arg, role, model)
  {
  }

  /** With two or more targets, a missing URL throws before the model runs,
      and no outcome of the model changes that. */
  lemma SelectMissingUrl(arg: PeerArg, role: RoleArg, model: RankingModel, i: nat)
    requires |TargetsOf(arg)| > 1 && i < |TargetsOf(arg)| && TargetsOf(arg)[i].url == ""
    ensures SelectPeers(arg, role, model) == Failure(MissingUrlMessage)
  {
  }

  /** Every selected peer is a target, and a target is selected exactly when
      its URL is in the list used for mapping back. */
  lemma SelectMembers(arg: PeerArg, role: RoleArg, model: RankingModel, p: Peer)
    requires |TargetsOf(arg)| > 1 && AllHaveUrls(TargetsOf(arg))
    ensures SelectPeers(arg, role, model).Success?
    ensures p in SelectPeers(arg, role, model).value <==>
              p in TargetsOf(arg) &&
              p.url in Ranked(model(Urls(TargetsOf(arg)), role), Urls(TargetsOf(arg)))
  {
    var targets := TargetsOf(arg);
    MapBackMembers(Ranked(model(Urls(targets), role), Urls(targets)), targets, p);
  }

  /** When the model throws, returns nothing or returns an empty list, the
      peers come back unchanged, in input order (given distinct URLs). */
  lemma SelectFallback(arg: PeerArg, role: RoleArg, model: RankingModel)
    requires |TargetsOf(arg)| > 1 && AllHaveUrls(TargetsOf(arg)) && DistinctUrls(TargetsOf(arg))
    requires var o := model(Urls(TargetsOf(arg)), role);
             o.Threw? || o.ranking.None? || o.ranking.value == []
    ensures SelectPeers(arg, role, model) == Success(TargetsOf(arg))
  {
    MapBackIdentity(TargetsOf(arg));
  }

  /** When the model returns a non-empty list of known URLs, the output has
      one peer per ranked URL, in ranked order (given distinct URLs). */
  lemma SelectFollowsRanking(arg: PeerArg, role: RoleArg, model: RankingModel, ranking: seq<string>)
    requires |TargetsOf(arg)| > 1 && AllHaveUrls(TargetsOf(arg)) && DistinctUrls(TargetsOf(arg))
    requires model(Urls(TargetsOf(arg)), role) == Returned(Some(ranking)) && ranking != []
    requires forall u :: u in ranking ==> u in Urls(TargetsOf(arg))
    ensures SelectPeers(arg, role, model).Success?
    ensures |SelectPeers(arg, role, model).value| == |ranking|
    ensures forall k :: 0 <= k < |ranking| ==>
              SelectPeers(arg, role, model).value[k].url == ranking[k] &&
              SelectPeers(arg, role, model).value[k] in TargetsOf(arg)
  {
    MapBackFollowsRanking(ranking, TargetsOf(arg));
  }

  /** When the model's output names no peer (no token contains any URL), the
      parsed list is empty and the peers come back unchanged. */
  lemma SelectUnmatchedOutput(arg: PeerArg, role: RoleArg, model: RankingModel, tokens: seq<string>)
    requires |TargetsOf(arg)| > 1 && AllHaveUrls(TargetsOf(arg)) && DistinctUrls(TargetsOf(arg))
    requires model(Urls(TargetsOf(arg)), role) ==
             Returned(Some(StatisticalModel.Matches(tokens, Urls(TargetsOf(arg)))))
    requires forall t, u :: t in tokens && u in Urls(TargetsOf(arg)) ==> !StringLib.Contains(t, u)
    ensures SelectPeers(arg, role, model) == Success(TargetsOf(arg))
  {
    StatisticalModel.MatchesEmpty(tokens, Urls(TargetsOf(arg)));
    SelectFallback(arg, role, model);
  }

  /** A URL that no target has picks no target. */
  lemma {:induction false} WithUrlAbsent(url: string, targets: seq<Peer>)
    requires forall i :: 0 <= i < |targets| ==> targets[i].url != url
    ensures WithUrl(url, targets) == []
    decreases |targets|
  {
    if targets != [] {
      var init := targets[..|targets| - 1];
      assert forall i :: 0 <= i < |init| ==> init[i] == targets[i];
      WithUrlAbsent(url, init);
    }
  }

  /** A ranking made only of URLs that no target has selects nothing. */
  lemma {:induction false} MapBackAbsent(ranked: seq<string>, targets: seq<Peer>)
    requires forall u :: u in ranked ==> u !in Urls(targets)
    ensures MapBack(ranked, targets) == []
    decreases |ranked|
  {
    if ranked != [] {
      var init, last := ranked[..|ranked| - 1], ranked[|ranked| - 1];
      assert forall u :: u in init ==> u in ranked;
      MapBackAbsent(init, targets);
      assert last in ranked;
      forall i | 0 <= i < |targets|
        ensures targets[i].url != last
      {
        assert Urls(targets)[i] == targets[i].url;
      }
      WithUrlAbsent(last, targets);
    }
  }

  /** A non-empty ranking that names no target URL is not caught by the
      fallback (that only checks for an absent or empty list): no target is
      selected and the result is an empty list. */
  lemma SelectUnknownRanking(arg: PeerArg, role: RoleArg, model: RankingModel, ranking: seq<string>)
    requires |TargetsOf(arg)| > 1 && AllHaveUrls(TargetsOf(arg))
    requires model(Urls(TargetsOf(arg)), role) == Returned(Some(ranking)) && ranking != []
    requires forall u :: u in ranking ==> u !in Urls(TargetsOf(arg))
    ensures SelectPeers(arg, role, model) == Success([])
  {
    MapBackAbsent(ranking, TargetsOf(arg));
  }

  /** Three peers with distinct URLs, ranked third then first: the selection
      is the third peer, then the first; the second is left out. */
  lemma SelectThirdThenFirst(a: Peer, b: Peer, c: Peer, model: RankingModel)
    requires a.url != "" && b.url != "" && c.url != ""
    requires a.url != b.url && b.url != c.url && a.url != c.url
    requires model([a.url, b.url, c.url], EndorsingPeer) == Returned(Some([c.url, a.url]))
    ensures SelectPeers(Many([a, b, c]), EndorsingPeer, model) == Success([c, a])
  {
    var targets, urls, ranking := [a, b, c], [a.url, b.url, c.url], [c.url, a.url];
    assert Urls(targets) == urls;
    assert AllHaveUrls(targets) && DistinctUrls(targets);
    assert Ranked(model(urls, EndorsingPeer), urls) == ranking;
    WithUrlDistinct(targets, 0);
    WithUrlDistinct(targets, 2);
    assert ranking[..1] == [c.url] && [c.url][..0] == [];
    assert MapBack([c.url], targets) == [c];
    assert MapBack(ranking, targets) == [c] + [a] == [c, a];
    assert TargetsOf(Many(targets)) == targets;
  }

  /** Peers at `p1`, `p2`, `p3`; the model prints `['p3', 'p1']`: the
      selection is the third peer, then the first; the second is left out. */
  lemma SelectPrintedRanking(a: Peer, b: Peer, c: Peer, model: RankingModel, stdout: string)
    requires a.url == "p1" && b.url == "p2" && c.url == "p3"
    requires stdout == "['p3', 'p1']\n"
    requires model([a.url, b.url, c.url], EndorsingPeer) ==
             Returned(Some(StatisticalModel.Matches(StatisticalModel.Tokens(stdout), [a.url, b.url, c.url])))
    ensures SelectPeers(Many([a, b, c]), EndorsingPeer, model) == Success([c, a])
  {
    StatisticalModel.MatchPrintedRanking(stdout, [a.url, b.url, c.url]);
    SelectThirdThenFirst(a, b, c, model);
  }

  /** Same peers; the model throws: all three come back in input order. */
  lemma SelectWhenModelThrows(a: Peer, b: Peer, c: Peer, model: RankingModel)
    requires a.url == "p1" && b.url == "p2" && c.url == "p3"
    requires model([a.url, b.url, c.url], EndorsingPeer).Threw?
    ensures SelectPeers(Many([a, b, c]), EndorsingPeer, model) == Success([a, b, c])
  {
    assert Urls([a, b, c]) == [a.url, b.url, c.url];
    SelectFallback(Many([a, b, c]), EndorsingPeer, model);
  }

  /** Repeated URLs repeat peers: two targets at the same URL and a model
      that throws give each target once per copy of the URL, `[A, B, A, B]`. */
  lemma SelectRepeatedUrl(a: Peer, b: Peer, model: RankingModel)
    requires a.url == b.url && a.url != ""
    requires model([a.url, b.url], EndorsingPeer).Threw?
    ensures SelectPeers(Many([a, b]), EndorsingPeer, model) == Success([a, b, a, b])
  {
    var targets, urls := [a, b], [a.url, b.url];
    assert Urls(targets) == urls && AllHaveUrls(targets);
    assert targets[..1] == [a] && [a][..0] == [];
    assert WithUrl(a.url, targets) == [a, b];
    assert urls[..1] == [a.url] && [a.url][..0] == [];
    assert MapBack([a.url], targets) == [a, b];
    assert MapBack(urls, targets) == [a, b] + [a, b] == [a, b, a, b];
    assert Ranked(model(urls, EndorsingPeer), urls) == urls;
    assert TargetsOf(Many(targets)) == targets;
  }

  // ---------------------------------------------------------------------------
  // Proposal responses

  /** A JavaScript `Error` object, by its message. */
  datatype Error = Error(message: string)

  /** A rejection reason: an `Error` instance, or any other value, given by
      `text`, the message of the `Error` that `new Error(reason)` builds. */
  datatype Reason = ErrorInstance(error: Error) | OtherReason(text: string)

  /** One settled `sendProposal` promise. */
  datatype Settled<V> = Fulfilled(value: V) | Rejected(reason: Reason)

  /** One element of the array `sendPeersProposal` resolves to: a peer's
      response, or an `Error`. */
  datatype Response<V> = Answer(value: V) | Failed(error: Error)

  /** The response pushed for one settled result: the fulfilled value
      unchanged, an `Error` reason as it is, any other reason wrapped in
      `new Error(reason)`. */
  predicate Reports<V(==)>(response: Response<V>, result: Settled<V>)
  {
    match result
    case Fulfilled(v) => response == Answer(v)
    case Rejected(ErrorInstance(e)) => response == Failed(e)
    case Rejected(OtherReason(t)) => response == Failed(Error(t))
  }

  /** `sendPeersProposal(peers, proposal, timeout)` once every promise has
      settled: `results[i]` is how the `sendProposal` call made for the i-th
      target settled (each call is independent, so a peer listed twice may
      settle two ways), in target order, as `promise-settle` keeps it. */
  method SendPeersProposal<V(==)>(arg: PeerArg, results: seq<Settled<V>>)
    returns (responses: seq<Response<V>>)
    requires |results| == |TargetsOf(arg)|
    ensures |responses| == |TargetsOf(arg)|
    ensures forall i :: 0 <= i < |responses| ==> Reports(responses[i], results[i])
  {
    responses := [];
    for i := 0 to |results|
      invariant |responses| == i
      invariant forall k :: 0 <= k < i ==> Reports(responses[k], results[k])
    {
      match results[i] {
        case Fulfilled(v) =>
          responses := responses + [Answer(v)];
        case Rejected(reason) =>
          if reason.ErrorInstance? {
            responses := responses + [Failed(reason.error)];
          } else {
            responses := responses + [Failed(Error(reason.text))];
          }
      }
    }
  }

  function CountFulfilled<V>(results: seq<Settled<V>>): nat
  {
    if results == [] then 0
    else CountFulfilled(results[1..]) + (if results[0].Fulfilled? then 1 else 0)
  }

  function CountAnswers<V>(responses: seq<Response<V>>): nat
  {
    if responses == [] then 0
    else CountAnswers(responses[1..]) + (if responses[0].Answer? then 1 else 0)
  }

  /** Nothing is dropped or invented: the responses hold as many answers as
      there were fulfilled results, and as many errors as rejections. */
  lemma {:induction false} ReportsCount<V>(responses: seq<Response<V>>, results: seq<Settled<V>>)
    requires |responses| == |results|
    requires forall i :: 0 <= i < |results| ==> Reports(responses[i], results[i])
    ensures CountAnswers(responses) == CountFulfilled(results)
    ensures |responses| - CountAnswers(responses) == |results| - CountFulfilled(results)
    decreases |results|
  {
    if results != [] {
      assert Reports(responses[0], results[0]);
      ReportsCount(responses[1..], results[1..]);
    }
  }
}
