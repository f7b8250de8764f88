/**
  The two string operations the matcher and the column discovery use:
  lower-casing a car name and Python's substring test `needle in s`.
*/
module Text {

  predicate IsUpper(c: char) { 'A' <= c <= 'Z' }

  /** One character of `str.lower()`, for the ASCII letters. */
  function LowerChar(c: char): char
  {
    if IsUpper(c) then (c as int + 32) as char else c
  }

  /** `s.lower()`, character by character. */
  function Lower(s: string): (r: string)
    ensures |r| == |s|
    ensures forall i :: 0 <= i < |s| ==> !IsUpper(r[i])
    ensures forall i :: 0 <= i < |s| && !IsUpper(s[i]) ==> r[i] == s[i]
    ensures forall i :: 0 <= i < |s| && IsUpper(s[i]) ==> 'a' <= r[i] <= 'z' && r[i] as int == s[i] as int + 32
  {
    seq(|s|, i requires 0 <= i < |s| => LowerChar(s[i]))
  }

  predicate IsPrefix(needle: string, s: string)
  {
    |needle| <= |s| && s[..|needle|] == needle
  }

  /**
    `needle in s`: the needle occurs at some start position of `s`.  The empty
    needle occurs in every string.
  */
  function Contains(s: string, needle: string): (b: bool)
    ensures b <==> exists i :: 0 <= i <= |s| && IsPrefix(needle, s[i..])
  {
    if IsPrefix(needle, s) then
      assert s[0..] == s;
      true
    else if s == [] then false
    else
      ContainsShift(s, needle);
      Contains(s[1..], needle)
  }

  /** Occurrences in `s[1..]` are the occurrences in `s` that start after position 0. */
  lemma ContainsShift(s: string, needle: string)
    requires s != []
    ensures (exists i :: 0 <= i <= |s| - 1 && IsPrefix(needle, s[1..][i..]))
        <==> (exists i :: 1 <= i <= |s| && IsPrefix(needle, s[i..]))
  {
    forall i | 0 <= i <= |s| - 1 ensures s[1..][i..] == s[i + 1..] { }
    if exists i :: 1 <= i <= |s| && IsPrefix(needle, s[i..]) {
      var i :| 1 <= i <= |s| && IsPrefix(needle, s[i..]);
      assert IsPrefix(needle, s[1..][i - 1..]);
    }
  }

  lemma ContainsEmpty(s: string)
    ensures Contains(s, [])
  {
  }

  /**
    A needle with an upper-case letter never occurs in a lower-cased string:
    the matcher lower-cases the names but not the fragment it is given.
  */
  lemma LoweredMissesUpper(s: string, needle: string, k: nat)
    requires k < |needle| && IsUpper(needle[k])
    ensures !Contains(Lower(s), needle)
  {
  }
}
