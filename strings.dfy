/**
 * The two string builtins the summarizer relies on: prefix slicing
 * (`text[:n]`) and joining with a separator (`sep.join(pieces)`).
 * Characters are Unicode scalar values, so lengths count code points as
 * Python does.
 */
module Strings {

  function Min(a: int, b: int): int {
    if a <= b then a else b
  }

  /** `s[:n]`: the first `n` characters of `s`, or all of `s` when it is shorter. */
  function Truncate(s: string, n: nat): (r: string)
    ensures |r| == Min(|s|, n)
    ensures r <= s
    ensures |s| <= n ==> r == s
  {
    if |s| <= n then s else s[..n]
  }

  /** `sep.join(pieces)`: the pieces in order, with `sep` between consecutive ones. */
  function Join(pieces: seq<string>, sep: string): (r: string)
    ensures pieces == [] ==> r == ""
    ensures |pieces| == 1 ==> r == pieces[0]
    ensures pieces != [] ==> pieces[0] <= r
  {
    if |pieces| == 0 then ""
    else if |pieces| == 1 then pieces[0]
    else pieces[0] + sep + Join(pieces[1..], sep)
  }

  /** Total number of characters in the pieces. */
  function SumLengths(pieces: seq<string>): nat {
    if pieces == [] then 0 else |pieces[0]| + SumLengths(pieces[1..])
  }

  /** Position at which piece `k` starts inside `Join(pieces, sep)`. */
  function Offset(pieces: seq<string>, sep: string, k: nat): nat
    requires k <= |pieces|
  {
    if k == 0 then 0 else |pieces[0]| + |sep| + Offset(pieces[1..], sep, k - 1)
  }

  /** The joined string has the pieces' characters plus one separator per gap. */
  lemma {:induction false} JoinLength(pieces: seq<string>, sep: string)
    ensures |Join(pieces, sep)| == SumLengths(pieces) + (if pieces == [] then 0 else (|pieces| - 1) * |sep|)
  {
    if |pieces| > 1 {
      JoinLength(pieces[1..], sep);
      assert (|pieces| - 1) * |sep| == (|pieces| - 2) * |sep| + |sep|;
    }
  }

  /** Joining a concatenation is joining each part and separating the two results. */
  lemma {:induction false} JoinAppend(a: seq<string>, b: seq<string>, sep: string)
    requires a != [] && b != []
    ensures Join(a + b, sep) == Join(a, sep) + sep + Join(b, sep)
  {
    if |a| == 1 {
      assert (a + b)[1..] == b;
    } else {
      assert (a + b)[1..] == a[1..] + b;
      JoinAppend(a[1..], b, sep);
    }
  }

  /** A slice past the head of a concatenation is a slice of its tail. */
  lemma SliceAfterHead(head: string, tail: string, lo: nat, hi: nat)
    requires lo <= hi <= |tail|
    ensures (head + tail)[|head| + lo..|head| + hi] == tail[lo..hi]
  {
  }

  /** Every piece occurs, unchanged and in order, at its offset in the joined string. */
  lemma {:induction false} JoinPieceAt(pieces: seq<string>, sep: string, k: nat)
    requires k < |pieces|
    ensures Offset(pieces, sep, k) + |pieces[k]| <= |Join(pieces, sep)|
    ensures Join(pieces, sep)[Offset(pieces, sep, k)..Offset(pieces, sep, k) + |pieces[k]|] == pieces[k]
  {
    if |pieces| == 1 {
    } else if k == 0 {
      assert Join(pieces, sep) == pieces[0] + (sep + Join(pieces[1..], sep));
    } else {
      var head := pieces[0] + sep;
      var rest := Join(pieces[1..], sep);
      assert Join(pieces, sep) == head + rest;
      JoinPieceAt(pieces[1..], sep, k - 1);
      var o := Offset(pieces[1..], sep, k - 1);
      assert Offset(pieces, sep, k) == |head| + o;
      assert pieces[1..][k - 1] == pieces[k];
      SliceAfterHead(head, rest, o, o + |pieces[k]|);
    }
  }

  /** Every piece but the last is followed by the separator in the joined string. */
  lemma {:induction false} JoinSeparatorAfter(pieces: seq<string>, sep: string, k: nat)
    requires k < |pieces| - 1
    ensures Offset(pieces, sep, k + 1) == Offset(pieces, sep, k) + |pieces[k]| + |sep|
    ensures Offset(pieces, sep, k + 1) <= |Join(pieces, sep)|
    ensures Join(pieces, sep)[Offset(pieces, sep, k) + |pieces[k]|..Offset(pieces, sep, k + 1)] == sep
  {
    var head := pieces[0] + sep;
    var rest := Join(pieces[1..], sep);
    assert Join(pieces, sep) == head + rest;
    if k == 0 {
      assert Offset(pieces, sep, 1) == |head|;
      assert Join(pieces, sep) == pieces[0] + (sep + rest);
      SliceAfterHead(pieces[0], sep + rest, 0, |sep|);
    } else {
      JoinSeparatorAfter(pieces[1..], sep, k - 1);
      var o := Offset(pieces[1..], sep, k - 1);
      var o' := Offset(pieces[1..], sep, k);
      assert Offset(pieces, sep, k) == |head| + o;
      assert Offset(pieces, sep, k + 1) == |head| + o';
      assert pieces[1..][k - 1] == pieces[k];
      SliceAfterHead(head, rest, o + |pieces[k]|, o');
    }
  }

  /** Pieces of at most `n` characters each add up to at most `n` per piece. */
  lemma {:induction false} SumLengthsBound(pieces: seq<string>, n: nat)
    requires forall j :: 0 <= j < |pieces| ==> |pieces[j]| <= n
    ensures SumLengths(pieces) <= n * |pieces|
  {
    if pieces != [] {
      SumLengthsBound(pieces[1..], n);
      assert n * |pieces| == n + n * (|pieces| - 1);
    }
  }
}
