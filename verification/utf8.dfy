/** Section 3 of RFC 3629: which byte strings are UTF-8, and where their characters begin. */
module Utf8 {
  import opened Bytes

  predicate Continuation(b: u8) { 0x80 <= b <= 0xBF }

  /** The length of the first character of `s`, or 0 when `s` does not start with one. */
  function CharLen(s: seq<u8>): (n: nat)
    ensures n <= 4 && n <= |s|
    ensures n > 0 ==> !Continuation(s[0])
  {
    if |s| >= 1 && s[0] <= 0x7F then 1
    else if |s| >= 2 && 0xC2 <= s[0] <= 0xDF && Continuation(s[1]) then 2
    else if |s| >= 3 && 0xE0 <= s[0] <= 0xEF && Continuation(s[1]) && Continuation(s[2])
            && (s[0] == 0xE0 ==> s[1] >= 0xA0) && (s[0] == 0xED ==> s[1] <= 0x9F) then 3
    else if |s| >= 4 && 0xF0 <= s[0] <= 0xF4
            && Continuation(s[1]) && Continuation(s[2]) && Continuation(s[3])
            && (s[0] == 0xF0 ==> s[1] >= 0x90) && (s[0] == 0xF4 ==> s[1] <= 0x8F) then 4
    else 0
  }

  predicate Valid(s: seq<u8>) {
    s == [] || (CharLen(s) > 0 && Valid(s[CharLen(s)..]))
  }

  /** A Rust `str`. */
  type Text = s: seq<u8> | Valid(s)

  lemma {:induction false} AsciiIsText(s: seq<u8>)
    requires forall i :: 0 <= i < |s| ==> s[i] < 0x80
    ensures Valid(s)
  {
    if s != [] {
      AsciiIsText(s[1..]);
    }
  }

  predicate StartsWith(s: seq<u8>, prefix: seq<u8>) {
    |prefix| <= |s| && s[..|prefix|] == prefix
  }

  /** `str::is_char_boundary`. */
  predicate IsBoundary(s: seq<u8>, i: nat) {
    i == 0 || i == |s| || (i < |s| && !Continuation(s[i]))
  }

  /** Cutting a UTF-8 prefix off UTF-8 text leaves UTF-8 text: characters never straddle the cut. */
  lemma {:induction false} SuffixAfterPrefixIsValid(s: Text, prefix: Text)
    requires StartsWith(s, prefix)
    ensures Valid(s[|prefix|..])
    decreases |s|
  {
    if prefix != [] {
      var n := CharLen(prefix);
      assert prefix[..n] == s[..n];
      assert CharLen(s) == n by {
        assert forall i :: 0 <= i < n ==> s[i] == prefix[i];
      }
      assert s[n..][..|prefix[n..]|] == prefix[n..];
      SuffixAfterPrefixIsValid(s[n..], prefix[n..]);
      assert s[n..][|prefix[n..]|..] == s[|prefix|..];
    } else {
      assert s[0..] == s;
    }
  }

  lemma {:induction false} TextAppend(a: Text, b: Text)
    ensures Valid(a + b)
  {
    if a == [] {
      assert a + b == b;
    } else {
      var n := CharLen(a);
      assert forall i :: 0 <= i < n ==> (a + b)[i] == a[i];
      assert CharLen(a + b) == n;
      assert (a + b)[n..] == a[n..] + b;
      TextAppend(a[n..], b);
    }
  }

  /** Every UTF-8 prefix of UTF-8 text ends on a character boundary of that text. */
  lemma PrefixEndsOnBoundary(s: Text, prefix: Text)
    requires StartsWith(s, prefix)
    ensures IsBoundary(s, |prefix|)
  {
    SuffixAfterPrefixIsValid(s, prefix);
    if |prefix| < |s| {
      assert s[|prefix|..] != [];
      assert s[|prefix|..][0] == s[|prefix|];
    }
  }
}
