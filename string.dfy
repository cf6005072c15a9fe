/** NUL-terminated byte strings (kernel/src/utils/string.rs). The bytes the
    source reads through a raw pointer are the sequence `s`. */
module Strings {

  /** Index of the first NUL byte. */
  function FirstNul(s: seq<bv8>): (i: nat)
    requires 0 in s
    ensures i < |s| && s[i] == 0
    ensures forall j :: 0 <= j < i ==> s[j] != 0
  {
    if s[0] == 0 then 0 else 1 + FirstNul(s[1..])
  }

  /** `strlen`: counts bytes up to AND including the terminator. */
  method Strlen(s: seq<bv8>) returns (count: nat)
    requires 0 in s
    ensures count == FirstNul(s) + 1
    ensures 1 <= count <= |s| && s[count - 1] == 0
    ensures forall j :: 0 <= j < count - 1 ==> s[j] != 0
  {
    count := 0;
    var p := 0;
    while true
      invariant p == count && p <= FirstNul(s)
      invariant forall j :: 0 <= j < p ==> s[j] != 0
      decreases |s| - p
    {
      count := count + 1;
      if s[p] == 0 {
        return;
      }
      p := p + 1;
    }
  }

  /** The characters `str::trim` removes, restricted to ASCII. */
  predicate IsWhitespace(b: bv8)
  {
    b == 0x20 || (0x09 <= b <= 0x0D)
  }

  function TrimStart(s: seq<bv8>): (r: seq<bv8>)
    ensures |r| <= |s| && r == s[|s| - |r|..]
    ensures r != [] ==> !IsWhitespace(r[0])
    ensures forall j :: 0 <= j < |s| - |r| ==> IsWhitespace(s[j])
  {
    if s == [] || !IsWhitespace(s[0]) then s else TrimStart(s[1..])
  }

  function TrimEnd(s: seq<bv8>): (r: seq<bv8>)
    ensures |r| <= |s| && r == s[..|r|]
    ensures r != [] ==> !IsWhitespace(r[|r| - 1])
    ensures forall j :: |r| <= j < |s| ==> IsWhitespace(s[j])
  {
    if s == [] || !IsWhitespace(s[|s| - 1]) then s else TrimEnd(s[..|s| - 1])
  }

  /** `str::trim` on ASCII: the result is the part of `s` left after removing
      whitespace from both ends, and neither of its ends is whitespace. */
  function Trim(s: seq<bv8>): (r: seq<bv8>)
    ensures r != [] ==> !IsWhitespace(r[0]) && !IsWhitespace(r[|r| - 1])
    ensures exists k :: 0 <= k <= |s| - |r| && TrimmedAt(s, r, k)
  {
    var t := TrimStart(s);
    var k := |s| - |t|;
    var r := TrimEnd(t);
    assert r == s[k..k + |r|];
    assert TrimmedAt(s, r, k);
    r
  }

  /** `r` is the bytes of `s` from `k` on, and only whitespace lies before
      and after it. */
  predicate TrimmedAt(s: seq<bv8>, r: seq<bv8>, k: nat)
    requires k + |r| <= |s|
  {
    && r == s[k..k + |r|]
    && (forall j :: 0 <= j < k ==> IsWhitespace(s[j]))
    && (forall j :: k + |r| <= j < |s| ==> IsWhitespace(s[j]))
  }

  /** `get_string_from_ptr`: the first `strlen` bytes, terminator included, trimmed. */
  method GetStringFromPtr(s: seq<bv8>) returns (r: seq<bv8>)
    requires 0 in s
    ensures r == Trim(s[..FirstNul(s) + 1])
  {
    var len := Strlen(s);
    r := Trim(s[..len]);
  }

  /** Trimming the front never removes a last byte that is not whitespace. */
  lemma {:induction false} TrimStartKeepsLast(t: seq<bv8>)
    requires t != [] && !IsWhitespace(t[|t| - 1])
    ensures TrimStart(t) != [] && TrimStart(t)[|TrimStart(t)| - 1] == t[|t| - 1]
  {
    if IsWhitespace(t[0]) {
      TrimStartKeepsLast(t[1..]);
    }
  }

  /** The terminator is not whitespace, so trimming never removes it: the
      string handed back always ends with the NUL byte that strlen counted. */
  lemma TrimKeepsTerminator(s: seq<bv8>)
    requires 0 in s
    ensures EndsWithNul(Trim(s[..FirstNul(s) + 1]))
  {
    TrimKeepsNulAt(s, FirstNul(s));
  }

  /** The sequence is not empty and its last byte is NUL. */
  predicate EndsWithNul(r: seq<bv8>)
  {
    r != [] && r[|r| - 1] == 0
  }

  /** Trimming the bytes up to a NUL byte keeps that byte last. */
  lemma TrimKeepsNulAt(s: seq<bv8>, k: nat)
    requires k < |s| && s[k] == 0
    ensures EndsWithNul(Trim(s[..k + 1]))
  {
    var t := s[..k + 1];
    assert t[k] == 0;
    TrimKeepsLast(t);
  }

  /** Trimming never removes a last byte that is not whitespace. */
  lemma TrimKeepsLast(t: seq<bv8>)
    requires t != [] && !IsWhitespace(t[|t| - 1])
    ensures Trim(t) != [] && Trim(t)[|Trim(t)| - 1] == t[|t| - 1]
  {
    TrimStartKeepsLast(t);
    TrimEndOfUnpadded(TrimStart(t));
  }

  /** Trimming the end of a sequence whose last byte is not whitespace keeps it. */
  lemma TrimEndOfUnpadded(a: seq<bv8>)
    requires a != [] && !IsWhitespace(a[|a| - 1])
    ensures TrimEnd(a) == a
  {
  }
}
