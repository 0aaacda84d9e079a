# Peer selection and proposal helpers of fabric-client

This project models, in Dafny, the deterministic core of two files of the
Hyperledger Fabric Node.js SDK client:

- `fabric-client/lib/client-utils.js`
  - the request validators `checkProposalRequest` and `checkInstallRequest`;
  - the chaincode-type mapping `translateCCType`;
  - rank-based peer selection, `discoverBestPeer`;
  - the loop of `sendPeersProposal` that turns settled results into responses.
- `fabric-client/lib/StatisticalModel.js`: the half of `runModel` that runs
  after the ranking process has finished. It checks `stderr`, takes the text
  between `['` and `']`, splits it on `,` and matches every token against
  every peer URL by substring containment.

Modules:

- `Wrappers` (`wrappers.dfy`): `Option` and `Result`.
- `Js` (`js.dfy`): the JavaScript semantics the core relies on. This covers
  truthiness, `indexOf`, `split` on one character (with its inverse `Join`)
  and ASCII `toLowerCase`. `ToUpper` is not used by the source; it only
  serves to state `ClientUtils.TranslateTypeName`.
- `Seqs` (`seqs.dfy`): two facts about concatenation and slicing.
- `StringLib` (`string_lib.dfy`): the two calls into the `string` npm
  package, `contains` and `between`.
- `StatisticalModel` (`statistical_model.dfy`): `runModel`'s parsing. It is an
  imperative method with the nested loop of the source, proved equal to the
  specification function `Matches(Tokens(stdout), peers)`. The lemmas about
  `Matches` state membership, order, multiplicity, length and emptiness.
- `ClientUtils` (`client_utils.dfy`): the rest.
  - A `Peer` is a class with a constant `url`, because the selection
    returns the very peer objects it was given.
  - `discoverBestPeer` is a method with the source's loops. It is proved
    equal to the function `SelectPeers`; the lemmas state its short-input,
    error, fallback, membership and ordering behaviour.
  - The statistical model is a parameter of type `RankingModel`. Its result
    either throws or returns a (possibly absent) list.

Three behaviours of the code differ from what a reader might expect of a
peer-ranking step; the model states the code's behaviour:

- One might expect the ranking step never to throw and to fall back to the
  original list itself. In the code, `runModel` throws the `stderr` text
  (`StatisticalModel.RunModel` returns `Failure`). The fallback happens in
  `discoverBestPeer`'s `try`/`catch` (`ClientUtils.SelectFallback`).
- One might expect a ranking that names no known peer to fall back to the
  original order. The code only falls back for a missing or empty list. A
  non-empty list of unknown URLs gives an empty selection
  (`ClientUtils.SelectUnknownRanking`). With the real `runModel` this cannot
  happen, because its output only holds passed URLs
  (`StatisticalModel.MatchesMembers`).
- One might expect concurrently sent proposals to be answered in completion
  order. The code collects them with `promise-settle`, which keeps the order
  of the promises, so `ClientUtils.SendPeersProposal` answers in target
  order.

Repeated URLs repeat peers: every target is pushed once per copy of its URL
in the list mapped back, so two targets sharing a URL come back as
`[A, B, A, B]` after a fallback (`ClientUtils.SelectRepeatedUrl`). The
fallback and ranking lemmas therefore assume distinct URLs.

## Model

| member | source | states |
|---|---|---|
| ClientUtils.CheckProposalRequest | fabric-client/lib/client-utils.js:188-201 | The result is `null` exactly when the request is present, `chaincodeId` is truthy and `txId` or `skip` is truthy. A missing request gives the missing-request message. A falsy `chaincodeId` gives its message, ahead of `txId`. The `txId` message comes exactly when `chaincodeId` is truthy and both `txId` and `skip` are falsy. |
| ClientUtils.SkipOnlyAffectsTxId | fabric-client/lib/client-utils.js:194 | Compared with a falsy `skip`, any `skip` either changes nothing or turns the `txId` message into `null`. |
| ClientUtils.CheckInstallRequest | fabric-client/lib/client-utils.js:203-214 | The result is `null` exactly when the request is present with a truthy `chaincodeVersion`. Otherwise it is the missing-request or the missing-version message. |
| ClientUtils.TranslateCCType | fabric-client/lib/client-utils.js:216-230 | CAR, JAVA and NODE come exactly when the lower-cased type is `car`, `java` and `node`. Everything else gives GOLANG: a missing or empty type, `golang`, or any other name. |
| ClientUtils.TranslateTypeName | fabric-client/lib/client-utils.js:219-229 | Every type is selected by its own name, in lower case and in upper case. |
| ClientUtils.TranslateIgnoresCase | fabric-client/lib/client-utils.js:219 | The mapping of a name equals the mapping of its lower-cased form. |
| ClientUtils.Ranked | fabric-client/lib/client-utils.js:278-305 | A non-empty list returned by the model is used as it is. A throw, an absent list or an empty list gives the original URL list. The result is empty only when the URL list is. |
| ClientUtils.CollectUrls | fabric-client/lib/client-utils.js:261-276 | If every target has a URL, the result is the URLs in target order. Otherwise it is the `'Peer URL is missing'` error. |
| ClientUtils.PushRanked | fabric-client/lib/client-utils.js:306-316 | The nested push loop builds exactly `MapBack(ranking, targets)`. |
| ClientUtils.DiscoverBestPeer | fabric-client/lib/client-utils.js:254-329 | The method returns or throws exactly what `SelectPeers` says, for every argument, role and model outcome. |
| ClientUtils.WithUrlMembers | fabric-client/lib/client-utils.js:310-314 | One pass of the inner loop picks a peer exactly when it is a target whose URL is that URL. |
| ClientUtils.MapBackMembers | fabric-client/lib/client-utils.js:309-315 | A peer is in the output exactly when it is a target and its URL is in the ranking. |
| ClientUtils.MapBackAppend | fabric-client/lib/client-utils.js:309-315 | The output follows the ranking's order: the peers for a later part of the ranking come after those for an earlier part. |
| ClientUtils.WithUrlDistinct | fabric-client/lib/client-utils.js:310-314 | With distinct URLs, a target's URL picks exactly that one target. |
| ClientUtils.MapBackFollowsRanking | fabric-client/lib/client-utils.js:309-315 | With distinct URLs and a ranking of target URLs, there is one output peer per ranked URL. The k-th output peer is a target whose URL is the k-th ranked URL. |
| ClientUtils.MapBackIdentity | fabric-client/lib/client-utils.js:309-315 | With distinct URLs, mapping back the original URL list gives exactly the targets, in input order. |
| ClientUtils.WithUrlAbsent | fabric-client/lib/client-utils.js:310-314 | A URL that no target has picks nothing. |
| ClientUtils.MapBackAbsent | fabric-client/lib/client-utils.js:309-315 | A ranking made only of URLs that no target has selects nothing. |
| ClientUtils.SelectShortInput | fabric-client/lib/client-utils.js:318-327 | With no targets the result is the `'Parameter peers should not be null or empty.'` error. One target, as an array of one or a bare peer, comes back as it is. The model's behaviour does not matter in either case. |
| ClientUtils.SelectMissingUrl | fabric-client/lib/client-utils.js:261-276 | With two or more targets, one target without a URL gives the `'Peer URL is missing'` error, whatever the model does. |
| ClientUtils.SelectMembers | fabric-client/lib/client-utils.js:306-316 | With two or more targets that all have URLs, the call succeeds. A peer is selected exactly when it is a target whose URL is in the list mapped back. |
| ClientUtils.SelectFallback | fabric-client/lib/client-utils.js:278-316 | Take two or more targets that all have URLs, with distinct URLs. If the model throws, returns nothing or returns an empty list, the output is exactly the targets in input order. |
| ClientUtils.SelectFollowsRanking | fabric-client/lib/client-utils.js:306-316 | Take two or more targets that all have URLs, with distinct URLs, and a non-empty ranking of target URLs. The output has one peer per ranked URL, and the k-th one is a target with the k-th URL. |
| ClientUtils.SelectUnmatchedOutput | fabric-client/lib/client-utils.js:294-299 | Take two or more targets, all with distinct URLs. When no token of the model's output contains any URL, the parsed list is empty and the targets come back unchanged. |
| ClientUtils.SelectUnknownRanking | fabric-client/lib/client-utils.js:294-316 | Take two or more targets that all have URLs. A non-empty ranking that names no target URL is not caught by the fallback. The result is an empty list. |
| ClientUtils.SelectRepeatedUrl | fabric-client/lib/client-utils.js:300-315 | Two targets A and B at the same URL, with a model that throws, give `[A, B, A, B]`: each target once per copy of its URL. |
| ClientUtils.SelectThirdThenFirst | fabric-client/lib/client-utils.js:306-316 | Take three peers with distinct URLs, ranked third then first. The output is the third peer, then the first; the second is left out. |
| ClientUtils.SelectPrintedRanking | fabric-client/lib/client-utils.js:271-316 | Take peers `p1`, `p2`, `p3` and a model that prints `['p3', 'p1']`. The selection is `[C, A]`. |
| ClientUtils.SelectWhenModelThrows | fabric-client/lib/client-utils.js:300-305 | For the same peers, a model that throws gives `[A, B, C]`. |
| ClientUtils.SendPeersProposal | fabric-client/lib/client-utils.js:73-116 | Given one settled result per target (each call independent, so a peer listed twice may settle two ways), there is exactly one response per target, in target order, a bare peer counting as `[peer]`. A fulfilled value is pushed unchanged. An `Error` reason is pushed as it is. Any other reason is wrapped in `new Error(reason)`. |
| ClientUtils.ReportsCount | fabric-client/lib/client-utils.js:99-114 | The responses hold as many answers as there were fulfilled results, and as many errors as rejections. |
| StatisticalModel.RunModel | fabric-client/lib/StatisticalModel.js:34-53 | A non-empty `stderr` is thrown before `stdout` is read. Otherwise the nested loop returns exactly `Matches(Tokens(stdout), peers)`. |
| StatisticalModel.Tokens | fabric-client/lib/StatisticalModel.js:41-43 | There is at least one token and no token holds a `,`. Joining the tokens with `,` gives back the text between `['` and `']`. |
| StatisticalModel.PeersInMembers | fabric-client/lib/StatisticalModel.js:47-51 | A token yields a peer exactly when that peer was passed and the token contains it. |
| StatisticalModel.MatchesMembers | fabric-client/lib/StatisticalModel.js:44-53 | A peer is in the result exactly when it was passed and some token contains it, so the parser never invents a peer. |
| StatisticalModel.PeersInAppend | fabric-client/lib/StatisticalModel.js:47-51 | For one token, matches keep the order of `peers`. |
| StatisticalModel.MatchesAppend | fabric-client/lib/StatisticalModel.js:46-52 | Matches keep the order of the tokens: a later token's matches all come after an earlier one's. |
| StatisticalModel.PeersInCount | fabric-client/lib/StatisticalModel.js:47-51 | One token yields `p` as often as `p` was passed if it contains `p`, and never otherwise. |
| StatisticalModel.MatchesCount | fabric-client/lib/StatisticalModel.js:46-52 | `p` occurs in the result (tokens containing `p`) × (copies of `p` passed) times. |
| StatisticalModel.PeersInLength | fabric-client/lib/StatisticalModel.js:47-51 | One token yields as many peers as there are peer positions whose URL it contains. |
| StatisticalModel.MatchesLength | fabric-client/lib/StatisticalModel.js:44-53 | The result length equals the number of (token position, peer position) pairs where the token contains the peer. |
| StatisticalModel.MatchesEmpty | fabric-client/lib/StatisticalModel.js:44-53 | The result is empty exactly when no token contains any peer. |
| StatisticalModel.BodyOfPrintedRanking | fabric-client/lib/StatisticalModel.js:43 | `between('[\'', '\']')` of `['p3', 'p1']` and a newline is `p3', 'p1`. |
| StatisticalModel.SplitPrintedBody | fabric-client/lib/StatisticalModel.js:43 | `p3', 'p1` splits on `,` into `p3'` and ` 'p1`. |
| StatisticalModel.TokensOfPrintedRanking | fabric-client/lib/StatisticalModel.js:41-43 | The output `['p3', 'p1']` gives the tokens `p3'` and ` 'p1`. |
| StatisticalModel.MatchPrintedTokens | fabric-client/lib/StatisticalModel.js:46-52 | Matching `p3'` and ` 'p1` against `p1`, `p2`, `p3` gives `p3`, then `p1`. |
| StatisticalModel.MatchPrintedRanking | fabric-client/lib/StatisticalModel.js:41-53 | The output `['p3', 'p1']` with peers `p1`, `p2`, `p3` parses to `p3`, then `p1`. |
| StatisticalModel.SubstringPeerAlsoMatched | fabric-client/lib/StatisticalModel.js:48 | Matching is by substring: a token naming only `p11` also selects `p1`, and before `p11`. |
| StringLib.Contains | fabric-client/lib/StatisticalModel.js:48 | `contains` is true exactly when the text occurs at some position. |
| StringLib.Between | fabric-client/lib/StatisticalModel.js:43 | The extracted text is never longer than the input. |
| StringLib.BetweenHasNoRight | fabric-client/lib/StatisticalModel.js:43 | The extracted text holds no right delimiter. |
| StringLib.BetweenEnclosed | fabric-client/lib/StatisticalModel.js:43 | A non-empty result stands in the input between a left and a right delimiter. |
| StringLib.BetweenOfDelimited | fabric-client/lib/StatisticalModel.js:43 | Take the first left delimiter and the first right delimiter after it. The body between them is returned exactly, whatever follows. |
| Js.IndexOf | fabric-client/lib/StatisticalModel.js:43-48 | `indexOf` gives the first position where the text occurs, or -1 (`None`) when it occurs nowhere. |
| Js.Split | fabric-client/lib/StatisticalModel.js:43 | `split` on one character gives at least one piece, and no piece holds the separator. |
| Js.JoinSplit | fabric-client/lib/StatisticalModel.js:43 | Joining the pieces of `split` with the separator gives back the input. |
| Js.SplitJoin | fabric-client/lib/StatisticalModel.js:43 | Splitting a join of separator-free pieces gives back the pieces. |
| Js.ToLower | fabric-client/lib/client-utils.js:219 | `toLowerCase` keeps the length, turns each upper-case letter into its lower-case letter, leaves no upper-case letter and changes no other character. |
| Js.ToLowerIdempotent | fabric-client/lib/client-utils.js:219 | Lower-casing twice is lower-casing once. |

## Left out

- `fabric-client/lib/efficient.js` only logs to the console and has no logic.
- `fs.stat` looks for `find.py` in `StatisticalModel.js:18-30`. This is file-system I/O in asynchronous callbacks, and their throws cannot reach `runModel`'s caller.
- Building the `python3` command line and running it with `execSync` (`StatisticalModel.js:32-33`) is process I/O. The process's `stdout` and `stderr` are inputs of `StatisticalModel.RunModel`.
- The model as `discoverBestPeer` calls it is a function parameter (`RankingModel`). The composition with `StatisticalModel.RunModel` is stated by `ClientUtils.SelectPrintedRanking` and `ClientUtils.SelectUnmatchedOutput`.
- The role constants come from `Constants.js`, which is not part of this model. The three cases the source distinguishes are the datatype `RoleArg`.
- StringLib.Between: the `string` package is not part of this model. When `['` does not occur at all, the model returns `''`. The package's own result for that input is not modelled.
- Js.ToLower: only ASCII letters are mapped. Unicode case mapping is not modelled.
- ClientUtils.TranslateCCType: a truthy non-string `type` (for which `toLowerCase` would throw a `TypeError`) is not modelled; the type is a string or absent.
- ClientUtils.DiscoverBestPeer: a `null` or `undefined` `peers` argument is wrapped into `[null]` and returned as it is by the source. The model's argument is always a peer or an array of peers.
- ClientUtils.Peer: only `getUrl()` is modelled, as a constant field; a falsy URL is the empty string. The rest of `Peer.js` is not part of this model.
- `NaN` is not a `Js.Value`, so its falsiness in the validators is not modelled.
- `buildProposal`, `buildChannelHeader` and `buildHeader` (`client-utils.js:36-68, 139-186`) are protobuf serialization through generated code.
- `signProposal` (`client-utils.js:122-134`) calls a foreign signing identity.
- `buildCurrentTimestamp` (`client-utils.js:235-241`) reads the clock and uses floating-point seconds.
- The promises of `sendPeersProposal` (`client-utils.js:79-96`) and `promise-settle` are concurrency. The model starts from the settled results, one per target, in target order; how each call settles is an input.
- Logging throughout both files is output only.
