/** The two calls the ranking parser makes into the `string` npm package:
    `S(s).contains(sub)` and `S(s).between(left, right)`. */
module StringLib {
  import opened Wrappers
  import opened Js
  import Seqs

  /** `S(s).contains(sub)`, that is `s.indexOf(sub) >= 0`: true exactly when
      `sub` occurs somewhere in `s`. */
  function Contains(s: string, sub: string): (r: bool)
    ensures r <==> exists k :: OccursAt(s, sub, k)
  {
    IndexOf(s, sub).Some?
  }

  /** `S(s).between(left, right)`: the text after the first `left` and before
      the first `right` that follows it, or `''` when there is no such `right`.
      The library's result when `left` does not occur at all is not modelled:
      the model gives `''` there as well. */
  function Between(s: string, left: string, right: string): (r: string)
    ensures |r| <= |s|
  {
    match IndexOf(s, left)
    case None => ""
    case Some(i) =>
      var tail := s[i + |left|..];
      match IndexOf(tail, right)
      case None => ""
      case Some(e) => tail[..e]
  }

  /** What `between` extracts holds no `right` delimiter. */
  lemma BetweenHasNoRight(s: string, left: string, right: string)
    requires right != ""
    ensures !Contains(Between(s, left, right), right)
  {
    if IndexOf(s, left).Some? {
      var tail := s[IndexOf(s, left).value + |left|..];
      if IndexOf(tail, right).Some? {
        var e := IndexOf(tail, right).value;
        var r := tail[..e];
        assert r + tail[e..] == tail;
        forall k | OccursAt(r, right, k)
          ensures false
        {
          OccursInPrefix(r, tail[e..], right, k);
        }
      }
    }
  }

  /** The text between an occurrence of `left` at `i` and an occurrence of
      `right` `e` characters after it is enclosed by the two. */
  lemma EnclosedAt(s: string, left: string, right: string, i: nat, e: nat)
    requires OccursAt(s, left, i) && OccursAt(s[i + |left|..], right, e)
    ensures OccursAt(s, left + s[i + |left|..][..e] + right, i)
  {
    var j := i + |left|;
    var k := j + e + |right|;
    assert s[j..][..e] == s[j..j + e];
    assert s[j..][e..e + |right|] == s[j + e..k];
    Seqs.SliceSplit(s, i, j, j + e, k);
  }

  /** A non-empty result of `between` stands in `s` between a `left` and a
      `right`. */
  lemma BetweenEnclosed(s: string, left: string, right: string)
    requires Between(s, left, right) != ""
    ensures exists i :: OccursAt(s, left + Between(s, left, right) + right, i)
  {
    var i := IndexOf(s, left).value;
    var e := IndexOf(s[i + |left|..], right).value;
    EnclosedAt(s, left, right, i, e);
  }

  /** The body between the first `left` and the first `right` after it is
      extracted exactly: when `left` first occurs at the end of `pre + left`
      and `right` first occurs at the end of `body + right`, `between` gives
      back `body` whatever follows. */
  lemma BetweenOfDelimited(pre: string, left: string, body: string, right: string, post: string)
    requires IndexOf(pre + left, left) == Some(|pre|)
    requires IndexOf(body + right, right) == Some(|body|)
    ensures Between(pre + left + body + right + post, left, right) == body
  {
    var tail := body + right + post;
    DelimitedParts(pre, left, body, right, post);
    IndexOfExtend(pre + left, tail, left);
    IndexOfExtend(body + right, post, right);
  }

  /** How `pre + left + body + right + post` cuts at the delimiters. */
  lemma DelimitedParts(pre: string, left: string, body: string, right: string, post: string)
    ensures pre + left + body + right + post == (pre + left) + (body + right + post)
    ensures (pre + left + body + right + post)[|pre| + |left|..] == body + right + post
    ensures body + right + post == (body + right) + post
    ensures (body + right + post)[..|body|] == body
  {
  }
}
