/** Joining and splitting text at a separator byte. */
module TextSplit {
  import opened Bytes

  const SLASH: u8 := 47

  predicate Free(s: seq<u8>, sep: u8) { forall i :: 0 <= i < |s| ==> s[i] != sep }

  predicate AllFree(pieces: seq<seq<u8>>, sep: u8) { forall i :: 0 <= i < |pieces| ==> Free(pieces[i], sep) }

  function Join(pieces: seq<seq<u8>>, sep: u8): seq<u8>
    requires pieces != []
  {
    if |pieces| == 1 then pieces[0] else pieces[0] + [sep] + Join(pieces[1..], sep)
  }

  /** The index of the first `sep`, or the length. */
  function Find(s: seq<u8>, sep: u8): (n: nat)
    ensures n <= |s| && Free(s[..n], sep) && (n < |s| ==> s[n] == sep)
  {
    if s == [] || s[0] == sep then 0
    else
      var n := 1 + Find(s[1..], sep);
      assert forall i :: 1 <= i < n ==> s[i] == s[1..][..n - 1][i - 1];
      n
  }

  /** `split_once`. */
  function SplitOnce(s: seq<u8>, sep: u8): Option<(seq<u8>, seq<u8>)> {
    var n := Find(s, sep);
    if n == |s| then None else Some((s[..n], s[n + 1..]))
  }

  /** `split`. */
  function Split(s: seq<u8>, sep: u8): (pieces: seq<seq<u8>>)
    ensures pieces != [] && AllFree(pieces, sep)
  {
    var n := Find(s, sep);
    if n == |s| then assert s[..n] == s; [s] else [s[..n]] + Split(s[n + 1..], sep)
  }

  lemma {:induction false} FindFirst(front: seq<u8>, rest: seq<u8>, sep: u8)
    requires Free(front, sep) && (rest == [] || rest[0] == sep)
    ensures Find(front + rest, sep) == |front|
  {
    if front == [] {
      assert front + rest == rest;
    } else {
      assert (front + rest)[1..] == front[1..] + rest;
      FindFirst(front[1..], rest, sep);
    }
  }

  /** Splitting once undoes putting a separator after text that has none, whatever follows. */
  lemma SplitOnceIff(s: seq<u8>, sep: u8, before: seq<u8>, after: seq<u8>)
    ensures SplitOnce(s, sep) == Some((before, after)) <==> Free(before, sep) && s == before + [sep] + after
  {
    if Free(before, sep) && s == before + [sep] + after {
      assert s == before + ([sep] + after);
      FindFirst(before, [sep] + after, sep);
      assert s[..|before|] == before && s[|before| + 1..] == after;
    }
    var n := Find(s, sep);
    if n < |s| {
      assert s == s[..n] + [sep] + s[n + 1..];
    }
  }

  lemma {:induction false} SplitOfJoin(pieces: seq<seq<u8>>, sep: u8)
    requires pieces != [] && AllFree(pieces, sep)
    ensures Split(Join(pieces, sep), sep) == pieces
  {
    var s := Join(pieces, sep);
    if |pieces| == 1 {
      assert s + [] == s;
      FindFirst(s, [], sep);
    } else {
      var rest := Join(pieces[1..], sep);
      assert s == pieces[0] + ([sep] + rest);
      FindFirst(pieces[0], [sep] + rest, sep);
      assert s[..|pieces[0]|] == pieces[0] && s[|pieces[0]| + 1..] == rest;
      SplitOfJoin(pieces[1..], sep);
    }
  }

  lemma {:induction false} JoinOfSplit(s: seq<u8>, sep: u8)
    ensures Join(Split(s, sep), sep) == s
    decreases |s|
  {
    var n := Find(s, sep);
    if n < |s| {
      var rest := s[n + 1..];
      JoinOfSplit(rest, sep);
      assert Split(s, sep)[1..] == Split(rest, sep);
      assert s == s[..n] + [sep] + rest;
    }
  }

  lemma JoinInjective(a: seq<seq<u8>>, b: seq<seq<u8>>, sep: u8)
    requires a != [] && b != [] && AllFree(a, sep) && AllFree(b, sep) && Join(a, sep) == Join(b, sep)
    ensures a == b
  {
    SplitOfJoin(a, sep);
    SplitOfJoin(b, sep);
  }

  lemma {:induction false} JoinSnoc(pieces: seq<seq<u8>>, last: seq<u8>, sep: u8)
    requires pieces != []
    ensures Join(pieces + [last], sep) == Join(pieces, sep) + [sep] + last
  {
    if |pieces| == 1 {
      assert (pieces + [last])[1..] == [last];
    } else {
      assert (pieces + [last])[1..] == pieces[1..] + [last];
      JoinSnoc(pieces[1..], last, sep);
      assert pieces[0] + [sep] + (Join(pieces[1..], sep) + [sep] + last) == Join(pieces, sep) + [sep] + last;
    }
  }

  /** A byte other than the separator is in the joined text exactly when it is in a piece. */
  lemma {:induction false} JoinFree(pieces: seq<seq<u8>>, sep: u8, other: u8)
    requires pieces != [] && other != sep
    ensures Free(Join(pieces, sep), other) <==> AllFree(pieces, other)
  {
    if |pieces| > 1 {
      var rest := Join(pieces[1..], sep);
      JoinFree(pieces[1..], sep, other);
      var s := Join(pieces, sep);
      assert s == pieces[0] + [sep] + rest;
      assert forall i :: 0 <= i < |rest| ==> s[|pieces[0]| + 1 + i] == rest[i];
      assert forall i :: 0 <= i < |pieces[0]| ==> s[i] == pieces[0][i];
      assert forall i :: 0 < i < |pieces| ==> pieces[i] == pieces[1..][i - 1];
    }
  }
}
