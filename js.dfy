/** The parts of JavaScript's own semantics that the modelled code relies on:
    truthiness, `String.prototype.indexOf`, `split` on a one-character
    separator and `toLowerCase`. */
module Js {
  import opened Wrappers

  /** The JavaScript values a request field can hold. Numbers are integers
      here (NaN is not modelled); every object, array or function is `Obj`. */
  datatype Value = Undefined | Null | Bool(b: bool) | Num(n: int) | Str(s: string) | Obj

  /** JavaScript's `ToBoolean`: `undefined`, `null`, `false`, `0` and `''`
      are the falsy values. */
  predicate Truthy(v: Value)
  {
    match v
    case Undefined => false
    case Null => false
    case Bool(b) => b
    case Num(n) => n != 0
    case Str(s) => s != ""
    case Obj => true
  }

  /** `sub` occurs in `s` starting at position `k`. */
  predicate OccursAt(s: string, sub: string, k: int)
  {
    0 <= k && k + |sub| <= |s| && s[k..k + |sub|] == sub
  }

  /** Occurrences in `s` after its first character are occurrences in `s[1..]`. */
  lemma OccursInTail(s: string, sub: string, k: nat)
    requires s != []
    ensures OccursAt(s, sub, k + 1) <==> OccursAt(s[1..], sub, k)
  {
    if k + 1 + |sub| <= |s| {
      assert s[k + 1..k + 1 + |sub|] == s[1..][k..k + |sub|];
    }
  }

  /** `s.indexOf(sub)`: the first position where `sub` occurs in `s`
      (`None` stands for -1). */
  function IndexOf(s: string, sub: string): (r: Option<nat>)
    ensures r.Some? ==> OccursAt(s, sub, r.value)
    ensures r.Some? ==> forall k :: 0 <= k < r.value ==> !OccursAt(s, sub, k)
    ensures r.None? ==> forall k :: !OccursAt(s, sub, k)
    decreases |s|
  {
    if |sub| > |s| then None
    else if s[..|sub|] == sub then Some(0)
    else
      var rest := IndexOf(s[1..], sub);
      assert forall k :: 1 <= k ==> (OccursAt(s, sub, k) <==> OccursAt(s[1..], sub, k - 1)) by {
        forall k | 1 <= k
          ensures OccursAt(s, sub, k) <==> OccursAt(s[1..], sub, k - 1)
        {
          OccursInTail(s, sub, k - 1);
        }
      }
      match rest
      case None => None
      case Some(k) => Some(k + 1)
  }

  /** `IndexOf` is determined by its contract: the first occurrence. */
  lemma IndexOfFirst(s: string, sub: string, k: nat)
    requires OccursAt(s, sub, k)
    requires forall j :: 0 <= j < k ==> !OccursAt(s, sub, j)
    ensures IndexOf(s, sub) == Some(k)
  {
  }

  /** Occurrences that end inside `s` are the same in `s + t`. */
  lemma OccursInPrefix(s: string, t: string, sub: string, k: nat)
    requires k + |sub| <= |s|
    ensures OccursAt(s + t, sub, k) <==> OccursAt(s, sub, k)
  {
    assert (s + t)[k..k + |sub|] == s[k..k + |sub|];
  }

  /** A match found in `s` is found at the same place in any extension `s + t`. */
  lemma IndexOfExtend(s: string, t: string, sub: string)
    requires IndexOf(s, sub).Some?
    ensures IndexOf(s + t, sub) == IndexOf(s, sub)
  {
    var k := IndexOf(s, sub).value;
    OccursInPrefix(s, t, sub, k);
    forall j | 0 <= j < k
      ensures !OccursAt(s + t, sub, j)
    {
      OccursInPrefix(s, t, sub, j);
    }
    IndexOfFirst(s + t, sub, k);
  }

  /** `s.split(sep)` for a one-character separator: the pieces between the
      separators, from left to right; an empty string gives `['']`. */
  function Split(s: string, sep: char): (r: seq<string>)
    ensures |r| >= 1
    ensures forall t :: t in r ==> sep !in t
    decreases |s|
  {
    if s == [] then [[]]
    else
      var rest := Split(s[1..], sep);
      assert s == [s[0]] + s[1..];
      if s[0] == sep then [[]] + rest
      else [[s[0]] + rest[0]] + rest[1..]
  }

  /** `ts.join(sep)`. */
  function Join(ts: seq<string>, sep: char): string
  {
    if |ts| == 0 then ""
    else if |ts| == 1 then ts[0]
    else ts[0] + [sep] + Join(ts[1..], sep)
  }

  /** Splitting and joining again gives back the text. */
  lemma {:induction false} JoinSplit(s: string, sep: char)
    ensures Join(Split(s, sep), sep) == s
    decreases |s|
  {
    if s != [] {
      var rest := Split(s[1..], sep);
      JoinSplit(s[1..], sep);
      assert Join(rest, sep) == s[1..];
      assert s == [s[0]] + s[1..];
      if s[0] == sep {
        var pieces := [[]] + rest;
        assert Split(s, sep) == pieces;
        assert pieces[1..] == rest;
        assert Join(pieces, sep) == [] + [sep] + Join(rest, sep);
      } else {
        var pieces := [[s[0]] + rest[0]] + rest[1..];
        assert Split(s, sep) == pieces;
        if |rest| == 1 {
          assert Join(pieces, sep) == [s[0]] + rest[0];
        } else {
          assert pieces[1..] == rest[1..];
          assert Join(pieces, sep) == ([s[0]] + rest[0]) + [sep] + Join(rest[1..], sep);
          assert Join(rest, sep) == rest[0] + [sep] + Join(rest[1..], sep);
        }
      }
    }
  }

  /** Splitting text that starts with a separator-free piece `t`. */
  lemma {:induction false} SplitAfterPiece(t: string, u: string, sep: char)
    requires sep !in t
    ensures Split(t + u, sep) == [t + Split(u, sep)[0]] + Split(u, sep)[1..]
    decreases |t|
  {
    if t != [] {
      assert (t + u)[1..] == t[1..] + u;
      assert t[0] in t;
      SplitAfterPiece(t[1..], u, sep);
      assert [t[0]] + (t[1..] + Split(u, sep)[0]) == t + Split(u, sep)[0];
    } else {
      var r := Split(u, sep);
      assert t + u == u && t + r[0] == r[0];
      assert r == [r[0]] + r[1..];
    }
  }

  /** Joining separator-free pieces and splitting again gives back the pieces. */
  lemma {:induction false} SplitJoin(ts: seq<string>, sep: char)
    requires |ts| >= 1
    requires forall t :: t in ts ==> sep !in t
    ensures Split(Join(ts, sep), sep) == ts
    decreases |ts|
  {
    SplitAfterPiece(ts[0], [], sep);
    assert ts[0] + [] == ts[0];
    if |ts| > 1 {
      SplitJoin(ts[1..], sep);
      var u := [sep] + Join(ts[1..], sep);
      assert Split(u, sep) == [[]] + ts[1..] by {
        assert u[1..] == Join(ts[1..], sep);
      }
      SplitAfterPiece(ts[0], u, sep);
      assert ts[0] + u == Join(ts, sep);
      assert ts == [ts[0] + []] + ts[1..];
    }
  }

  /** `toLowerCase` on one character; only the ASCII letters are mapped. */
  function LowerChar(c: char): char
  {
    if 'A' <= c <= 'Z' then (c as int + 32) as char else c
  }

  /** The inverse of `LowerChar` on the ASCII letters. */
  function UpperChar(c: char): char
  {
    if 'a' <= c <= 'z' then (c as int - 32) as char else c
  }

  /** `s.toLowerCase()`: each upper-case ASCII letter becomes its lower-case
      letter, no character is left upper-case, and every other character is
      left as it is. */
  function ToLower(s: string): (r: string)
    ensures |r| == |s|
    ensures forall i :: 0 <= i < |s| && 'A' <= s[i] <= 'Z' ==>
              r[i] as int == s[i] as int + ('a' as int - 'A' as int)
    ensures forall i :: 0 <= i < |r| ==> !('A' <= r[i] <= 'Z')
    ensures forall i :: 0 <= i < |s| && !('A' <= s[i] <= 'Z') ==> r[i] == s[i]
  {
    seq(|s|, i requires 0 <= i < |s| => LowerChar(s[i]))
  }

  /** Upper-casing of ASCII letters. The source never upper-cases; this only
      serves to state that the chaincode-type mapping ignores letter case. */
  function ToUpper(s: string): (r: string)
    ensures |r| == |s|
    ensures forall i :: 0 <= i < |r| ==> !('a' <= r[i] <= 'z')
  {
    seq(|s|, i requires 0 <= i < |s| => UpperChar(s[i]))
  }

  /** Lower-casing twice is lower-casing once. */
  lemma ToLowerIdempotent(s: string)
    ensures ToLower(ToLower(s)) == ToLower(s)
  {
  }

  /** Upper-casing a lower-case ASCII word and lower-casing it again restores it. */
  lemma ToLowerToUpper(s: string)
    requires forall i :: 0 <= i < |s| ==> !('A' <= s[i] <= 'Z')
    ensures ToLower(ToUpper(s)) == s
  {
  }
}
