/**
 * The two string helpers the store and the forms rely on, restricted to ASCII:
 * `String.prototype.trim` and `String.prototype.toLowerCase`.
 */
module Text {

  /** The ASCII characters that `trim` removes: space, tab, line feed, vertical tab, form feed, carriage return. */
  predicate IsSpace(c: char) {
    c == ' ' || c == '\t' || c == '\n' || c == '\U{000B}' || c == '\U{000C}' || c == '\r'
  }

  /** The number of white-space characters `s` starts with. */
  function LeadingSpaces(s: string): (n: nat)
    ensures n <= |s|
    ensures forall k :: 0 <= k < n ==> IsSpace(s[k])
    ensures n < |s| ==> !IsSpace(s[n])
  {
    if s == [] || !IsSpace(s[0]) then 0 else 1 + LeadingSpaces(s[1..])
  }

  /** Walking back from `m` over white space, but not below `lo`: where the text of `s` ends. */
  function TextEnd(s: string, lo: nat, m: nat): (e: nat)
    requires lo <= m <= |s|
    requires forall k :: m <= k < |s| ==> IsSpace(s[k])
    ensures lo <= e <= m
    ensures forall k :: e <= k < |s| ==> IsSpace(s[k])
    ensures e > lo ==> !IsSpace(s[e - 1])
    decreases m
  {
    if m > lo && IsSpace(s[m - 1]) then TextEnd(s, lo, m - 1) else m
  }

  /**
   * `s.trim()`: the slice of `s` that starts after its leading white space and ends before its
   * trailing white space.
   */
  function Trim(s: string): (r: string)
    ensures r == [] <==> forall k :: 0 <= k < |s| ==> IsSpace(s[k])
    ensures r != [] ==> !IsSpace(r[0]) && !IsSpace(r[|r| - 1])
    ensures var i := LeadingSpaces(s);
      && i + |r| <= |s| && r == s[i..i + |r|]
      && (forall k :: 0 <= k < i ==> IsSpace(s[k]))
      && (forall k :: i + |r| <= k < |s| ==> IsSpace(s[k]))
  {
    var i := LeadingSpaces(s);
    var j := TextEnd(s, i, |s|);
    assert i < |s| ==> i < j;
    s[i..j]
  }

  /** Any slice with white space only around it and none at its ends is what `trim` returns. */
  lemma TrimUnique(s: string, i: nat, j: nat)
    requires i < j <= |s| && !IsSpace(s[i]) && !IsSpace(s[j - 1])
    requires forall k :: 0 <= k < i ==> IsSpace(s[k])
    requires forall k :: j <= k < |s| ==> IsSpace(s[k])
    ensures Trim(s) == s[i..j]
  {
    var r := Trim(s);
    assert LeadingSpaces(s) == i;
    assert r != [];
    assert j - 1 < i + |r|;
    assert i + |r| - 1 < j by {
      assert !IsSpace(s[i + |r| - 1]);
    }
  }

  /** Trimming twice is trimming once. */
  lemma TrimIdempotent(s: string)
    ensures Trim(Trim(s)) == Trim(s)
  {
    var r := Trim(s);
    if r != [] {
      TrimUnique(r, 0, |r|);
      assert r[0..|r|] == r;
    }
  }

  /** A space typed after the text disappears when trimmed. */
  lemma TrimIgnoresTrailingSpace(s: string)
    ensures Trim(s + " ") == Trim(s)
  {
    var t := s + " ";
    var r := Trim(s);
    if r == [] {
      forall k | 0 <= k < |t| ensures IsSpace(t[k]) {
        if k < |s| {
          assert t[k] == s[k];
        }
      }
    } else {
      var i := LeadingSpaces(s);
      TrimUnique(t, i, i + |r|);
      assert t[i..i + |r|] == r;
    }
  }

  /** ASCII `toLowerCase` of one character. */
  function LowerChar(c: char): char {
    if 'A' <= c <= 'Z' then (c as int + 32) as char else c
  }

  /** `s.toLowerCase()` over ASCII: every letter A-Z becomes a-z, every other character stays. */
  function ToLower(s: string): (r: string)
    ensures |r| == |s|
    ensures forall k :: 0 <= k < |s| ==> r[k] == LowerChar(s[k])
  {
    if s == [] then [] else [LowerChar(s[0])] + ToLower(s[1..])
  }
}
