/** The text-processing half of `runModel` (fabric-client/lib/StatisticalModel.js):
    turning what the ranking process printed into a list of peer URLs.
    Locating `find.py` and launching `python3` are not modelled; the
    process's output is an input. */
module StatisticalModel {
  import opened Wrappers
  import opened Js
  import Seqs
  import opened StringLib

  /** What `python3 find.py <peers> <role> <dir>` printed. */
  datatype ProcessOutput = ProcessOutput(stdout: string, stderr: string)

  const ListOpen: string := "['"
  const ListClose: string := "']"
  const Separator: char := ','

  /** The candidate tokens: the text between `['` and `']`, split on `,`.
      Joining them with `,` gives back that text exactly. */
  function Tokens(stdout: string): (r: seq<string>)
    ensures |r| >= 1
    ensures Join(r, Separator) == Between(stdout, ListOpen, ListClose)
    ensures forall t :: t in r ==> Separator !in t
  {
    var body := Between(stdout, ListOpen, ListClose);
    JoinSplit(body, Separator);
    Split(body, Separator)
  }

  /** The peers that `token` contains as a substring, in the order of `peers`
      (one pass of the inner loop). */
  function PeersIn(token: string, peers: seq<string>): (r: seq<string>)
    ensures |r| <= |peers|
    decreases |peers|
  {
    if peers == [] then []
    else
      var init, last := peers[..|peers| - 1], peers[|peers| - 1];
      assert peers == init + [last];
      PeersIn(token, init) + (if Contains(token, last) then [last] else [])
  }

  /** Everything the nested loop appends: for each token in turn, the peers it
      contains. */
  function Matches(tokens: seq<string>, peers: seq<string>): seq<string>
    decreases |tokens|
  {
    if tokens == [] then []
    else
      var init, last := tokens[..|tokens| - 1], tokens[|tokens| - 1];
      assert tokens == init + [last];
      Matches(init, peers) + PeersIn(last, peers)
  }

  /** `runModel` after the process has run: a non-empty `stderr` is thrown as
      an `Error` before `stdout` is looked at; otherwise every token is matched
      against every peer, tokens in the outer loop and peers in the inner one. */
  method RunModel(peers: seq<string>, output: ProcessOutput) returns (r: Result<seq<string>, string>)
    ensures output.stderr != "" ==> r == Failure(output.stderr)
    ensures output.stderr == "" ==> r == Success(Matches(Tokens(output.stdout), peers))
  {
    if output.stderr != "" {
      return Failure(output.stderr);
    }
    var result := Tokens(output.stdout);
    var uPeerList: seq<string> := [];
    for i := 0 to |result|
      invariant uPeerList == Matches(result[..i], peers)
    {
      for j := 0 to |peers|
        invariant uPeerList == Matches(result[..i], peers) + PeersIn(result[i], peers[..j])
      {
        assert peers[..j + 1][..j] == peers[..j];
        if Contains(result[i], peers[j]) {
          uPeerList := uPeerList + [peers[j]];
        }
      }
      assert result[..i + 1][..i] == result[..i];
      assert peers[..|peers|] == peers;
    }
    assert result[..|result|] == result;
    return Success(uPeerList);
  }

  /** A token yields exactly the passed peers it contains. */
  lemma {:induction false} PeersInMembers(token: string, peers: seq<string>, p: string)
    ensures p in PeersIn(token, peers) <==> p in peers && Contains(token, p)
    decreases |peers|
  {
    if peers != [] {
      var init := peers[..|peers| - 1];
      assert peers == init + [peers[|peers| - 1]];
      PeersInMembers(token, init, p);
    }
  }

  /** A peer is in the parsed list exactly when it was passed in and some
      token contains it. In particular the parser can filter, reorder or
      repeat peers, never invent one. */
  lemma {:induction false} MatchesMembers(tokens: seq<string>, peers: seq<string>, p: string)
    ensures p in Matches(tokens, peers) <==> p in peers && exists t :: t in tokens && Contains(t, p)
    decreases |tokens|
  {
    if tokens != [] {
      var init, last := tokens[..|tokens| - 1], tokens[|tokens| - 1];
      assert tokens == init + [last];
      MatchesMembers(init, peers, p);
      PeersInMembers(last, peers, p);
      if p in peers && Contains(last, p) {
        assert last in tokens;
      }
      if t :| t in init && Contains(t, p) {
        assert t in tokens;
      }
    }
  }

  /** The inner loop keeps the order of `peers`. */
  lemma {:induction false} PeersInAppend(token: string, p1: seq<string>, p2: seq<string>)
    ensures PeersIn(token, p1 + p2) == PeersIn(token, p1) + PeersIn(token, p2)
    decreases |p2|
  {
    if p2 == [] {
      assert p1 + p2 == p1;
    } else {
      var init, last := p2[..|p2| - 1], p2[|p2| - 1];
      var p := p1 + p2;
      assert p[..|p| - 1] == p1 + init && p[|p| - 1] == last;
      PeersInAppend(token, p1, init);
      var a, b, c := PeersIn(token, p1), PeersIn(token, init), if Contains(token, last) then [last] else [];
      assert PeersIn(token, p) == PeersIn(token, p1 + init) + c;
      Seqs.ConcatAssoc(a, b, c);
    }
  }

  /** The outer loop keeps the order of the tokens: the matches of a later
      token all come after those of an earlier one. */
  lemma {:induction false} MatchesAppend(t1: seq<string>, t2: seq<string>, peers: seq<string>)
    ensures Matches(t1 + t2, peers) == Matches(t1, peers) + Matches(t2, peers)
    decreases |t2|
  {
    if t2 == [] {
      assert t1 + t2 == t1;
    } else {
      var init, last := t2[..|t2| - 1], t2[|t2| - 1];
      var t := t1 + t2;
      assert t[..|t| - 1] == t1 + init && t[|t| - 1] == last;
      MatchesAppend(t1, init, peers);
      var a, b, c := Matches(t1, peers), Matches(init, peers), PeersIn(last, peers);
      assert Matches(t, peers) == Matches(t1 + init, peers) + c;
      Seqs.ConcatAssoc(a, b, c);
    }
  }

  /** The number of tokens that contain `p`. */
  function TokensContaining(tokens: seq<string>, p: string): nat
  {
    if tokens == [] then 0
    else TokensContaining(tokens[..|tokens| - 1], p) + (if Contains(tokens[|tokens| - 1], p) then 1 else 0)
  }

  /** One token yields each peer it contains as often as that peer is passed. */
  lemma {:induction false} PeersInCount(token: string, peers: seq<string>, p: string)
    ensures multiset(PeersIn(token, peers))[p] == if Contains(token, p) then multiset(peers)[p] else 0
    decreases |peers|
  {
    if peers != [] {
      var init := peers[..|peers| - 1];
      assert peers == init + [peers[|peers| - 1]];
      PeersInCount(token, init, p);
    }
  }

  /** The parsed list holds `p` once for each (token, passed copy of `p`) pair
      with the token containing `p`: a peer is repeated once per token that
      contains it. */
  lemma {:induction false} MatchesCount(tokens: seq<string>, peers: seq<string>, p: string)
    ensures multiset(Matches(tokens, peers))[p] == TokensContaining(tokens, p) * multiset(peers)[p]
    decreases |tokens|
  {
    if tokens != [] {
      var init, last := tokens[..|tokens| - 1], tokens[|tokens| - 1];
      var m, c := multiset(peers)[p], TokensContaining(init, p);
      var a, d := Matches(init, peers), PeersIn(last, peers);
      MatchesCount(init, peers, p);
      PeersInCount(last, peers, p);
      assert Matches(tokens, peers) == a + d;
      assert multiset(a + d)[p] == c * m + multiset(d)[p];
      if Contains(last, p) {
        assert TokensContaining(tokens, p) == c + 1;
        MultiplyOut(c, 1, m);
      } else {
        assert TokensContaining(tokens, p) == c;
      }
    }
  }

  lemma MultiplyOut(c: nat, b: nat, m: nat)
    ensures (c + b) * m == c * m + b * m
  {
  }

  /** The parsed list is empty exactly when no token contains any peer. */
  lemma MatchesEmpty(tokens: seq<string>, peers: seq<string>)
    ensures Matches(tokens, peers) == [] <==>
            forall t, p :: t in tokens && p in peers ==> !Contains(t, p)
  {
    if Matches(tokens, peers) != [] {
      var p := Matches(tokens, peers)[0];
      MatchesMembers(tokens, peers, p);
    }
    forall t, p | t in tokens && p in peers && Contains(t, p)
      ensures Matches(tokens, peers) != []
    {
      MatchesMembers(tokens, peers, p);
    }
  }

  /** The (token position, peer position) pairs whose token contains the
      peer: the iterations of the nested loop that push. */
  ghost function ContainmentPairs(tokens: seq<string>, peers: seq<string>): set<(int, int)>
  {
    set i, j | 0 <= i < |tokens| && 0 <= j < |peers| && Contains(tokens[i], peers[j]) :: (i, j)
  }

  /** The pairs of the token at position `i`. */
  ghost function RowPairs(token: string, peers: seq<string>, i: int): set<(int, int)>
  {
    set j | 0 <= j < |peers| && Contains(token, peers[j]) :: (i, j)
  }

  /** One token yields one peer per containing pair. */
  lemma {:induction false} PeersInLength(token: string, peers: seq<string>, i: int)
    ensures |PeersIn(token, peers)| == |RowPairs(token, peers, i)|
    decreases |peers|
  {
    if peers != [] {
      var m := |peers| - 1;
      var init, last := peers[..m], peers[m];
      PeersInLength(token, init, i);
      var a, b := RowPairs(token, init, i), if Contains(token, last) then {(i, m)} else {};
      assert RowPairs(token, peers, i) == a + b;
      assert (i, m) !in a;
    }
  }

  /** The parsed list has exactly one element per (token, peer) pair with the
      token containing the peer. */
  lemma {:induction false} MatchesLength(tokens: seq<string>, peers: seq<string>)
    ensures |Matches(tokens, peers)| == |ContainmentPairs(tokens, peers)|
    decreases |tokens|
  {
    if tokens != [] {
      var n := |tokens| - 1;
      var init, last := tokens[..n], tokens[n];
      MatchesLength(init, peers);
      PeersInLength(last, peers, n);
      var all, a, b := ContainmentPairs(tokens, peers), ContainmentPairs(init, peers), RowPairs(last, peers, n);
      forall x: (int, int)
        ensures (x in all <==> x in a + b) && (x in a ==> x.0 < n) && (x in b ==> x.0 == n)
      {
        PairsMember(tokens, peers, x.0, x.1);
        PairsMember(init, peers, x.0, x.1);
        RowMember(last, peers, n, x.0, x.1);
        if 0 <= x.0 < n {
          assert tokens[x.0] == init[x.0];
        }
      }
      assert all == a + b;
      assert a * b == {};
    }
  }

  lemma PairsMember(tokens: seq<string>, peers: seq<string>, i: int, j: int)
    ensures (i, j) in ContainmentPairs(tokens, peers) <==>
            0 <= i < |tokens| && 0 <= j < |peers| && Contains(tokens[i], peers[j])
  {
  }

  lemma RowMember(token: string, peers: seq<string>, i: int, i': int, j: int)
    ensures (i', j) in RowPairs(token, peers, i) <==> i' == i && 0 <= j < |peers| && Contains(token, peers[j])
  {
  }

  /** `sub` is not contained in `s` when its last character never occurs in `s`. */
  lemma NotContainedWithoutLastChar(s: string, sub: string)
    requires sub != [] && sub[|sub| - 1] !in s
    ensures !Contains(s, sub)
  {
    forall k | OccursAt(s, sub, k)
      ensures false
    {
    }
  }

  /** The first `']` in `p3', 'p1']` is the one at its end. */
  lemma FirstCloseAtEnd(body: string)
    requires body == "p3', 'p1"
    ensures IndexOf(body + ListClose, ListClose) == Some(|body|)
  {
    var closed := body + ListClose;
    assert forall i :: 0 <= i < |closed| - 1 ==> closed[i] != ']';
    forall j | 0 <= j < |body|
      ensures !OccursAt(closed, ListClose, j)
    {
      assert closed[j..j + 2][1] == closed[j + 1];
    }
    IndexOfFirst(closed, ListClose, |body|);
  }

  /** The list body printed in `['p3', 'p1']` is `p3', 'p1`. */
  lemma BodyOfPrintedRanking(stdout: string, body: string)
    requires stdout == "['p3', 'p1']\n" && body == "p3', 'p1"
    ensures Between(stdout, ListOpen, ListClose) == body
  {
    FirstCloseAtEnd(body);
    IndexOfFirst("" + ListOpen, ListOpen, 0);
    BetweenOfDelimited("", ListOpen, body, ListClose, "\n");
    PrintedRankingParts(stdout, body);
  }

  /** `['p3', 'p1']` and a newline, cut at the list delimiters. */
  lemma PrintedRankingParts(stdout: string, body: string)
    requires stdout == "['p3', 'p1']\n" && body == "p3', 'p1"
    ensures "" + ListOpen + body + ListClose + "\n" == stdout
  {
    assert |"" + ListOpen + body + ListClose + "\n"| == |stdout|;
  }

  /** The body `p3', 'p1` splits into `p3'` and ` 'p1`. */
  lemma SplitPrintedBody(body: string, t0: string, t1: string)
    requires body == "p3', 'p1" && t0 == "p3'" && t1 == " 'p1"
    ensures Split(body, Separator) == [t0, t1]
  {
    assert Join([t0, t1], Separator) == body;
    SplitJoin([t0, t1], Separator);
  }

  /** The process prints `['p3', 'p1']`: the tokens are `p3'` and ` 'p1`. */
  lemma TokensOfPrintedRanking(stdout: string)
    requires stdout == "['p3', 'p1']\n"
    ensures Tokens(stdout) == ["p3'", " 'p1"]
  {
    BodyOfPrintedRanking(stdout, "p3', 'p1");
    SplitPrintedBody("p3', 'p1", "p3'", " 'p1");
  }

  /** Matching the tokens `p3'` and ` 'p1` against `p1`, `p2`, `p3` gives the
      peers in the printed order, `p2` omitted. */
  lemma MatchPrintedTokens(tokens: seq<string>, peers: seq<string>)
    requires tokens == ["p3'", " 'p1"] && peers == ["p1", "p2", "p3"]
    ensures Matches(tokens, peers) == [peers[2], peers[0]]
  {
    var t0, t1 := tokens[0], tokens[1];
    var p1, p2, p3 := peers[0], peers[1], peers[2];
    assert OccursAt(t0, p3, 0);
    assert OccursAt(t1, p1, 2);
    NotContainedWithoutLastChar(t0, p1);
    NotContainedWithoutLastChar(t0, p2);
    NotContainedWithoutLastChar(t1, p2);
    NotContainedWithoutLastChar(t1, p3);
    assert [p1, p2, p3][..2] == [p1, p2] && [p1, p2][..1] == [p1] && [p1][..0] == [];
    assert PeersIn(t0, [p1]) == [] && PeersIn(t1, [p1]) == [p1];
    assert PeersIn(t0, [p1, p2]) == [] && PeersIn(t1, [p1, p2]) == [p1];
    assert PeersIn(t0, peers) == [p3];
    assert PeersIn(t1, peers) == [p1];
    assert tokens[..1] == [t0] && tokens[..1][..0] == [];
    assert Matches(tokens[..1], peers) == [p3];
  }

  /** The process prints `['p3', 'p1']` for peers `p1`, `p2`, `p3`: the parsed
      list is `p3`, then `p1`. */
  lemma MatchPrintedRanking(stdout: string, peers: seq<string>)
    requires stdout == "['p3', 'p1']\n" && peers == ["p1", "p2", "p3"]
    ensures Matches(Tokens(stdout), peers) == [peers[2], peers[0]]
  {
    TokensOfPrintedRanking(stdout);
    MatchPrintedTokens(Tokens(stdout), peers);
  }

  /** Matching is by substring, not equality: a token naming only `p11`
      also selects `p1`, and before `p11`, since `p1` is passed first. */
  lemma SubstringPeerAlsoMatched(token: string, peers: seq<string>)
    requires token == "'p11'" && peers == ["p1", "p11"]
    ensures Matches([token], peers) == peers
  {
    assert OccursAt(token, peers[0], 1);
    assert OccursAt(token, peers[1], 1);
    assert peers[..1] == [peers[0]] && peers[..1][..0] == [];
    assert PeersIn(token, peers[..1]) == [peers[0]];
    assert PeersIn(token, peers) == peers;
    assert [token][..0] == [];
  }
}
