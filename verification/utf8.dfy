/** UTF-8 validation, as Rust's `str::from_utf8` performs it when the string
    atoms turn their bytes into `&str`.

    A character is one of the byte sequences of section 4 of RFC 3629: an
    ASCII byte, or a lead byte followed by one to three continuation bytes,
    with the second byte narrowed so that overlong forms, surrogates and code
    points past U+10FFFF are refused. `from_utf8` fails at the first position
    where no such character starts (or where one is cut off by the end), and
    its error's `valid_up_to` is that position. */
module Utf8 {
  import opened Bytes

  /** A continuation byte, `10xxxxxx`. */
  predicate Cont(b: byte) {
    0x80 <= b <= 0xBF
  }

  /** The second byte allowed after a three-byte lead. */
  predicate SecondOf3(lead: byte, b: byte) {
    (lead == 0xE0 && 0xA0 <= b <= 0xBF) ||
    (0xE1 <= lead <= 0xEC && Cont(b)) ||
    (lead == 0xED && 0x80 <= b <= 0x9F) ||
    (0xEE <= lead <= 0xEF && Cont(b))
  }

  /** The second byte allowed after a four-byte lead. */
  predicate SecondOf4(lead: byte, b: byte) {
    (lead == 0xF0 && 0x90 <= b <= 0xBF) ||
    (0xF1 <= lead <= 0xF3 && Cont(b)) ||
    (lead == 0xF4 && 0x80 <= b <= 0x8F)
  }

  /** The length of the character starting at `i`, or 0 when none starts
      there: a byte that cannot lead, a bad continuation, or the end of `s`
      before the character is complete. */
  function CharLen(s: seq<byte>, i: nat): (n: nat)
    ensures n <= 4
    ensures n > 0 ==> i + n <= |s|
    ensures i < |s| && s[i] < 0x80 ==> n == 1
    ensures i < |s| && 0x80 <= s[i] < 0xC2 ==> n == 0
    ensures i < |s| && s[i] > 0xF4 ==> n == 0
  {
    if i >= |s| then 0
    else
      var b := s[i];
      if b < 0x80 then 1
      else if 0xC2 <= b <= 0xDF then
        if i + 1 < |s| && Cont(s[i + 1]) then 2 else 0
      else if 0xE0 <= b <= 0xEF then
        if i + 2 < |s| && SecondOf3(b, s[i + 1]) && Cont(s[i + 2]) then 3 else 0
      else if 0xF0 <= b <= 0xF4 then
        if i + 3 < |s| && SecondOf4(b, s[i + 1]) && Cont(s[i + 2]) && Cont(s[i + 3]) then 4 else 0
      else 0
  }

  /** Where validation that starts at the character boundary `i` stops: the
      end of `s`, or the first position where no character starts. */
  function ValidUpTo(s: seq<byte>, i: nat): (r: nat)
    requires i <= |s|
    ensures i <= r <= |s|
    ensures r < |s| ==> CharLen(s, r) == 0
    decreases |s| - i
  {
    if i == |s| then i
    else
      var n := CharLen(s, i);
      if n == 0 then i else ValidUpTo(s, i + n)
  }

  /** `from_utf8(s).is_ok()`. */
  predicate Valid(s: seq<byte>) {
    ValidUpTo(s, 0) == |s|
  }

  /** `Utf8Error::valid_up_to` of `from_utf8(s)`, and `|s|` when it
      succeeds. */
  function ValidPrefix(s: seq<byte>): (r: nat)
    ensures r <= |s|
    ensures r == |s| <==> Valid(s)
  {
    ValidUpTo(s, 0)
  }

  /** A complete character reads the same with more bytes after it. */
  lemma {:induction false} CharLenExtend(s: seq<byte>, t: seq<byte>, i: nat)
    requires CharLen(s, i) > 0
    ensures CharLen(s + t, i) == CharLen(s, i)
  {
    var n := CharLen(s, i);
    assert forall k :: i <= k < i + n ==> (s + t)[k] == s[k];
  }

  /** A complete character reads the same with the bytes after it cut off. */
  lemma {:induction false} CharLenCut(s: seq<byte>, k: nat, i: nat)
    requires k <= |s| && CharLen(s, i) > 0 && i + CharLen(s, i) <= k
    ensures CharLen(s[..k], i) == CharLen(s, i)
  {
    var n := CharLen(s, i);
    assert forall j :: i <= j < i + n ==> s[..k][j] == s[j];
  }

  /** Bytes in front do not change what starts at a position. */
  lemma {:induction false} CharLenShift(s: seq<byte>, t: seq<byte>, j: nat)
    ensures CharLen(s + t, |s| + j) == CharLen(t, j)
  {
    assert forall k :: 0 <= k < |t| ==> (s + t)[|s| + k] == t[k];
  }

  /** Validation that reaches the end of `a` goes on into `b` from `|a|`. */
  lemma {:induction false} WalkPrefix(a: seq<byte>, b: seq<byte>, i: nat)
    requires i <= |a| && ValidUpTo(a, i) == |a|
    ensures ValidUpTo(a + b, i) == ValidUpTo(a + b, |a|)
    decreases |a| - i
  {
    if i < |a| {
      var n := CharLen(a, i);
      CharLenExtend(a, b, i);
      WalkPrefix(a, b, i + n);
    }
  }

  /** Validation of `a + b` from inside `b` is validation of `b`. */
  lemma {:induction false} WalkShift(a: seq<byte>, b: seq<byte>, j: nat)
    requires j <= |b|
    ensures ValidUpTo(a + b, |a| + j) == |a| + ValidUpTo(b, j)
    decreases |b| - j
  {
    if j < |b| {
      CharLenShift(a, b, j);
      var n := CharLen(b, j);
      if n > 0 {
        WalkShift(a, b, j + n);
      }
    }
  }

  /** Validation up to the boundary `k` is the same on `s` cut at `k`. */
  lemma {:induction false} WalkCut(s: seq<byte>, k: nat, i: nat)
    requires i <= k <= |s| && ValidUpTo(s, i) == k
    ensures ValidUpTo(s[..k], i) == k
    decreases k - i
  {
    if i < k {
      var n := CharLen(s, i);
      CharLenCut(s, k, i);
      WalkCut(s, k, i + n);
    }
  }

  /** A prefix that validates from `i` is not longer than what validation
      of the whole of `s` from `i` accepts. */
  lemma {:induction false} WalkLongest(s: seq<byte>, k: nat, i: nat)
    requires i <= k <= |s| && ValidUpTo(s[..k], i) == k
    ensures ValidUpTo(s, i) >= k
    decreases k - i
  {
    if i < k {
      var n := CharLen(s[..k], i);
      assert s[..k] + s[k..] == s;
      CharLenExtend(s[..k], s[k..], i);
      WalkLongest(s, k, i + n);
    }
  }

  /** Two valid strings make a valid string: `String::push_str` needs no
      check. */
  lemma {:induction false} ConcatValid(a: seq<byte>, b: seq<byte>)
    requires Valid(a) && Valid(b)
    ensures Valid(a + b)
  {
    WalkPrefix(a, b, 0);
    WalkShift(a, b, 0);
  }

  /** `valid_up_to` is the length of the longest valid prefix: the prefix
      that long is valid, and no valid prefix is longer. */
  lemma {:induction false} ValidPrefixLongest(s: seq<byte>, k: nat)
    requires k <= |s|
    ensures Valid(s[..ValidPrefix(s)])
    ensures Valid(s[..k]) ==> k <= ValidPrefix(s)
  {
    WalkCut(s, ValidPrefix(s), 0);
    if Valid(s[..k]) {
      WalkLongest(s, k, 0);
    }
  }

  /** Bytes below 0x80 are each a character. */
  predicate IsAscii(s: seq<byte>) {
    forall i :: 0 <= i < |s| ==> s[i] < 0x80
  }

  /** ASCII text is valid UTF-8. */
  lemma {:induction false} AsciiValid(s: seq<byte>)
    requires IsAscii(s)
    ensures Valid(s)
  {
    AsciiWalk(s, 0);
  }

  lemma {:induction false} AsciiWalk(s: seq<byte>, i: nat)
    requires IsAscii(s) && i <= |s|
    ensures ValidUpTo(s, i) == |s|
    decreases |s| - i
  {
    if i < |s| {
      AsciiWalk(s, i + 1);
    }
  }

  /** A few cases of section 4 of RFC 3629: "é" as C3 A9 is valid; a lead
      byte cut off by the end, an overlong "/" (C0 AF) and an encoded
      surrogate (ED A0 80) are not, and validation stops at their first
      byte. */
  lemma {:induction false} Utf8Examples()
    ensures Valid([0x61, 0xC3, 0xA9])
    ensures ValidPrefix([0x61, 0xC3]) == 1
    ensures ValidPrefix([0xC0, 0xAF]) == 0
    ensures ValidPrefix([0x61, 0x62, 0xED, 0xA0, 0x80]) == 2
  {
    assert CharLen([0x61, 0xC3, 0xA9], 1) == 2;
    assert ValidUpTo([0x61, 0xC3, 0xA9], 1) == 3;
    assert ValidUpTo([0x61, 0xC3], 1) == 1;
    assert ValidUpTo([0x61, 0x62, 0xED, 0xA0, 0x80], 2) == 2;
    assert ValidUpTo([0x61, 0x62, 0xED, 0xA0, 0x80], 1) == 2;
  }
}
