/** NUL-terminated byte strings, as the table reads its keys, and the string
    comparator the table is used with (bcmap_strcmp, a call of strcmp). */
module CString {

  /** An `unsigned char`. */
  type Byte = b: int | 0 <= b < 256

  predicate NulFree(s: seq<Byte>)
  {
    forall i :: 0 <= i < |s| ==> s[i] != 0
  }

  /** The bytes of a C string before its terminator. */
  type Key = s: seq<Byte> | NulFree(s)

  /** Index of the first terminator in a buffer that holds one. */
  function FirstNul(buf: seq<Byte>): (n: nat)
    requires 0 in buf
    ensures n < |buf| && buf[n] == 0
    ensures NulFree(buf[..n])
  {
    if buf[0] == 0 then 0
    else
      assert 0 in buf[1..];
      1 + FirstNul(buf[1..])
  }

  /** The string a `const char *` into `buf` denotes. */
  function CStr(buf: seq<Byte>): Key
    requires 0 in buf
  {
    buf[..FirstNul(buf)]
  }

  /** First byte of a C string, reading the terminator 0 of an empty one. */
  function Head(s: Key): Byte
  {
    if |s| == 0 then 0 else s[0]
  }

  /** `s` orders strictly before `t` in strcmp's order: `s` is a proper
      prefix of `t`, or the first byte where they differ is smaller in `s`. */
  ghost predicate Below(s: Key, t: Key)
  {
    exists n :: 0 <= n <= |s| && n < |t| && s[..n] == t[..n] && (n == |s| || s[n] < t[n])
  }

  /** strcmp over unsigned bytes: the difference of the first pair of bytes
      that differ, the terminator counting as byte 0. */
  function StrCmp(s: Key, t: Key): (r: int)
    ensures r == 0 <==> s == t
    ensures r < 0 <==> Below(s, t)
    decreases |s|
  {
    if |s| == 0 || |t| == 0 || s[0] != t[0] then
      var r := Head(s) - Head(t);
      assert r < 0 ==> s[..0] == t[..0];
      assert r > 0 && |s| > 0 && |t| > 0 ==> !Below(s, t);
      r
    else
      var r := StrCmp(s[1..], t[1..]);
      BelowCons(s, t);
      assert s == [s[0]] + s[1..] && t == [t[0]] + t[1..];
      r
  }

  /** Strings that share their first byte compare as their tails do. */
  lemma BelowCons(s: Key, t: Key)
    requires |s| > 0 && |t| > 0 && s[0] == t[0]
    ensures Below(s, t) <==> Below(s[1..], t[1..])
  {
    if Below(s, t) {
      BelowDropHead(s, t);
    }
    if Below(s[1..], t[1..]) {
      BelowAddHead(s, t);
    }
  }

  /** One direction of BelowCons: drop the shared first byte. */
  lemma BelowDropHead(s: Key, t: Key)
    requires |s| > 0 && |t| > 0 && s[0] == t[0] && Below(s, t)
    ensures Below(s[1..], t[1..])
  {
    var n :| 0 <= n <= |s| && n < |t| && s[..n] == t[..n] && (n == |s| || s[n] < t[n]);
    assert n > 0;
    var s', t' := s[1..], t[1..];
    assert s'[..n - 1] == s[..n][1..];
    assert t'[..n - 1] == t[..n][1..];
    assert n - 1 == |s'| || s'[n - 1] < t'[n - 1];
  }

  /** The other direction of BelowCons: put the shared first byte back. */
  lemma BelowAddHead(s: Key, t: Key)
    requires |s| > 0 && |t| > 0 && s[0] == t[0] && Below(s[1..], t[1..])
    ensures Below(s, t)
  {
    var s', t' := s[1..], t[1..];
    var n :| 0 <= n <= |s'| && n < |t'| && s'[..n] == t'[..n] && (n == |s'| || s'[n] < t'[n]);
    assert s[..n + 1] == [s[0]] + s'[..n];
    assert t[..n + 1] == [t[0]] + t'[..n];
    assert n + 1 == |s| || s[n + 1] < t[n + 1];
  }

  /** strcmp is antisymmetric: swapping the arguments negates the result. */
  lemma {:induction false} StrCmpAntisymmetric(s: Key, t: Key)
    ensures StrCmp(s, t) == -StrCmp(t, s)
    decreases |s|
  {
    if |s| == 0 || |t| == 0 || s[0] != t[0] {
    } else {
      StrCmpAntisymmetric(s[1..], t[1..]);
    }
  }
}
