/** Section 3 of RFC 3629: the UTF-8 encoding of every Unicode scalar value, and how many there are. */
module Unicode {
  import opened Bytes
  import Utf8

  predicate IsScalar(cp: nat) { cp < 0xD800 || 0xE000 <= cp < 0x110000 }

  /** The leading byte's marker, and the code point in base 64 below it. */
  function EncodeChar(cp: nat): (s: seq<u8>)
    requires IsScalar(cp)
    ensures 1 <= |s| <= 4
  {
    var (x, d) := (cp / 64, cp % 64);
    var (y, c) := (x / 64, x % 64);
    var (z, b) := (y / 64, y % 64);
    if cp < 0x80 then [cp]
    else if cp < 0x800 then [0xC0 + x, 0x80 + d]
    else if cp < 0x10000 then [0xE0 + y, 0x80 + c, 0x80 + d]
    else [0xF0 + z, 0x80 + b, 0x80 + c, 0x80 + d]
  }

  lemma EncodeInjective(m: nat, n: nat)
    requires IsScalar(m) && IsScalar(n) && EncodeChar(m) == EncodeChar(n)
    ensures m == n
  {
    var (a, b) := (EncodeChar(m), EncodeChar(n));
    assert a[0] == b[0];
    assert |a| > 1 ==> a[1] == b[1];
    assert |a| > 2 ==> a[2] == b[2];
    assert |a| > 3 ==> a[3] == b[3];
  }

  /** A scalar value encodes to one whole character. */
  lemma EncodeIsOneChar(cp: nat)
    requires IsScalar(cp)
    ensures Utf8.CharLen(EncodeChar(cp)) == |EncodeChar(cp)| && Utf8.Valid(EncodeChar(cp))
    ensures forall i :: 1 <= i < |EncodeChar(cp)| ==> Utf8.Continuation(EncodeChar(cp)[i])
  {
    hide Utf8.Valid;
    OneChar(cp);
    WholeIsText(EncodeChar(cp));
  }

  lemma OneChar(cp: nat)
    requires IsScalar(cp)
    ensures Utf8.CharLen(EncodeChar(cp)) == |EncodeChar(cp)|
    ensures forall i :: 1 <= i < |EncodeChar(cp)| ==> Utf8.Continuation(EncodeChar(cp)[i])
  {
  }

  lemma WholeIsText(s: seq<u8>)
    requires s != [] && Utf8.CharLen(s) == |s|
    ensures Utf8.Valid(s)
  {
    assert s[|s|..] == [];
  }

  // ----- Text is encoded scalar values, and nothing else is -----

  predicate AllScalars(cps: seq<nat>) { forall i :: 0 <= i < |cps| ==> IsScalar(cps[i]) }

  function EncodeAll(cps: seq<nat>): seq<u8>
    requires AllScalars(cps)
  {
    if cps == [] then [] else EncodeChar(cps[0]) + EncodeAll(cps[1..])
  }

  /** The first character of `s` is the encoding of one scalar value. */
  lemma DecodeChar(s: seq<u8>) returns (cp: nat)
    requires Utf8.CharLen(s) > 0
    ensures IsScalar(cp) && EncodeChar(cp) == s[..Utf8.CharLen(s)]
  {
    var n := Utf8.CharLen(s);
    var a: int := s[0];
    if n == 1 {
      cp := a;
    } else {
      var b: int := s[1];
      if n == 2 {
        cp := (a - 0xC0) * 64 + (b - 0x80);
      } else {
        var c: int := s[2];
        if n == 3 {
          cp := ((a - 0xE0) * 64 + (b - 0x80)) * 64 + (c - 0x80);
          assert cp / 64 == (a - 0xE0) * 64 + (b - 0x80);
        } else {
          var d: int := s[3];
          cp := (((a - 0xF0) * 64 + (b - 0x80)) * 64 + (c - 0x80)) * 64 + (d - 0x80);
          assert cp / 64 == ((a - 0xF0) * 64 + (b - 0x80)) * 64 + (c - 0x80);
          assert cp / 64 / 64 == (a - 0xF0) * 64 + (b - 0x80);
        }
      }
    }
  }

  lemma {:induction false} Decode(s: seq<u8>) returns (cps: seq<nat>)
    requires Utf8.Valid(s)
    ensures AllScalars(cps) && EncodeAll(cps) == s
    decreases |s|
  {
    hide EncodeChar;
    if s == [] {
      cps := [];
    } else {
      var n := Utf8.CharLen(s);
      var cp := DecodeChar(s);
      var rest := Decode(s[n..]);
      cps := [cp] + rest;
      assert cps[1..] == rest;
    }
  }

  lemma {:induction false} EncodedIsText(cps: seq<nat>)
    requires AllScalars(cps)
    ensures Utf8.Valid(EncodeAll(cps))
  {
    hide EncodeChar, Utf8.Valid;
    Utf8.AsciiIsText([]);
    if cps != [] {
      EncodedIsText(cps[1..]);
      EncodeIsOneChar(cps[0]);
      Utf8.TextAppend(EncodeChar(cps[0]), EncodeAll(cps[1..]));
    }
  }

  /** The byte strings that count as text are exactly the encodings of sequences of scalar values. */
  lemma TextIff(s: seq<u8>)
    ensures Utf8.Valid(s) <==> exists cps :: AllScalars(cps) && EncodeAll(cps) == s
  {
    hide EncodeChar, Utf8.Valid;
    if Utf8.Valid(s) {
      var cps := Decode(s);
    }
    if cps :| AllScalars(cps) && EncodeAll(cps) == s {
      EncodedIsText(cps);
    }
  }

  // ----- Counting -----

  function Below(n: nat): (s: set<nat>)
    ensures |s| == n && forall i :: i in s <==> 0 <= i < n
  {
    if n == 0 then {} else Below(n - 1) + {n - 1}
  }

  const SCALARS := 0x110000 - 0x800

  lemma ScalarCount() returns (scalars: set<nat>)
    ensures |scalars| == SCALARS && forall cp :: cp in scalars ==> IsScalar(cp)
  {
    hide Below;
    var surrogates := Below(0xE000) - Below(0xD800);
    assert Below(0xD800) <= Below(0xE000) <= Below(0x110000);
    Difference(Below(0xE000), Below(0xD800));
    scalars := Below(0x110000) - surrogates;
    Difference(Below(0x110000), surrogates);
  }

  lemma Difference(a: set<nat>, b: set<nat>)
    requires b <= a
    ensures |a - b| == |a| - |b|
  {
    assert a == (a - b) + b;
  }

  lemma {:induction false} SubsetSize(a: set<nat>, b: set<nat>)
    requires a <= b
    ensures |a| <= |b|
  {
    if a != {} {
      var x :| x in a;
      SubsetSize(a - {x}, b - {x});
    }
  }

  /** Each name is an extension of `q` by at most one character. */
  lemma {:induction false} UsedChars(names: seq<seq<u8>>, q: seq<u8>) returns (used: set<nat>)
    ensures |used| <= |names| && forall cp :: IsScalar(cp) && q + EncodeChar(cp) in names ==> cp in used
  {
    hide EncodeChar;
    if names == [] {
      used := {};
    } else {
      var (front, last) := (names[..|names| - 1], names[|names| - 1]);
      used := UsedChars(front, q);
      assert names == front + [last];
      if cp :| IsScalar(cp) && q + EncodeChar(cp) == last {
        used := used + {cp};
        forall other | IsScalar(other) && q + EncodeChar(other) == last ensures other == cp {
          assert EncodeChar(other) == (q + EncodeChar(other))[|q|..] == (q + EncodeChar(cp))[|q|..] == EncodeChar(cp);
          EncodeInjective(cp, other);
        }
      }
    }
  }

  /** Fewer names than there are characters leave some extension of `q` by one character unnamed. */
  lemma FreshChar(names: seq<seq<u8>>, q: seq<u8>) returns (cp: nat)
    requires |names| < SCALARS
    ensures IsScalar(cp) && q + EncodeChar(cp) !in names
  {
    var used := UsedChars(names, q);
    var scalars := ScalarCount();
    if scalars <= used {
      SubsetSize(scalars, used);
    }
    cp :| cp in scalars && cp !in used;
  }
}
