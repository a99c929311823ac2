/** `String.trimmingCharacters(in: CharacterSet.alphanumerics.inverted)`:
    every character outside the alphanumeric class is removed from the two
    ends of a string. Characters between the first and the last alphanumeric
    character are kept, whatever they are. */
module Trimming {

  /** The alphanumeric class, restricted to ASCII letters and digits. */
  predicate IsAlnum(c: char) {
    ('0' <= c <= '9') || ('a' <= c <= 'z') || ('A' <= c <= 'Z')
  }

  /** A string made only of characters the trim removes. */
  ghost predicate AllJunk(s: string) {
    forall k :: 0 <= k < |s| ==> !IsAlnum(s[k])
  }

  /** `s[i..j]` is what is left of `s` once its junk ends are cut off: nothing
      alphanumeric lies outside it, and unless it is empty it starts and ends
      with an alphanumeric character. */
  ghost predicate TrimBounds(s: string, i: int, j: int) {
    && 0 <= i <= j <= |s|
    && (forall k :: 0 <= k < i ==> !IsAlnum(s[k]))
    && (forall k :: j <= k < |s| ==> !IsAlnum(s[k]))
    && (i < j ==> IsAlnum(s[i]) && IsAlnum(s[j - 1]))
  }

  /** Number of non-alphanumeric characters before the first alphanumeric one. */
  function LeadingJunk(s: string): (i: nat)
    ensures i <= |s|
    ensures forall k :: 0 <= k < i ==> !IsAlnum(s[k])
    ensures i < |s| ==> IsAlnum(s[i])
  {
    if |s| == 0 || IsAlnum(s[0]) then 0 else 1 + LeadingJunk(s[1..])
  }

  /** Number of non-alphanumeric characters after the last alphanumeric one. */
  function TrailingJunk(s: string): (j: nat)
    ensures j <= |s|
    ensures forall k :: |s| - j <= k < |s| ==> !IsAlnum(s[k])
    ensures j < |s| ==> IsAlnum(s[|s| - 1 - j])
  {
    if |s| == 0 || IsAlnum(s[|s| - 1]) then 0 else 1 + TrailingJunk(s[..|s| - 1])
  }

  /** Where the trim cuts `s`: the kept part is `s[cut.0..cut.1]`. */
  function TrimCut(s: string): (cut: (nat, nat))
    ensures TrimBounds(s, cut.0, cut.1)
  {
    var i := LeadingJunk(s);
    if i == |s| then (i, i) else (i, |s| - TrailingJunk(s))
  }

  /** The trimmed string. */
  function Trim(s: string): (t: string)
    ensures exists i, j :: TrimBounds(s, i, j) && t == s[i..j]
  {
    var cut := TrimCut(s);
    s[cut.0..cut.1]
  }

  /** The bounds are unique: any cut satisfying `TrimBounds` is the trim. */
  lemma TrimUnique(s: string, i: int, j: int)
    requires TrimBounds(s, i, j)
    ensures Trim(s) == s[i..j]
  {
    var l := LeadingJunk(s);
    if i < j {
      assert l == i;
      var t := TrailingJunk(s);
      assert |s| - t == j;
    } else {
      assert l == |s|;
    }
  }

  /** Junk added at either end does not change the trim. */
  lemma TrimIgnoresJunkEnds(p: string, s: string, q: string)
    requires AllJunk(p) && AllJunk(q)
    ensures Trim(p + s + q) == Trim(s)
  {
    var cut := TrimCut(s);
    var w := p + s + q;
    assert Trim(s) == s[cut.0..cut.1];
    BoundsInContext(p, s, q, w, cut.0, cut.1);
    TrimUnique(w, |p| + cut.0, |p| + cut.1);
    assert Trim(w) == s[cut.0..cut.1];
  }

  /** Trim bounds of `s` shifted past a junk prefix are trim bounds of the
      padded string, and cut out the same characters. */
  lemma BoundsInContext(p: string, s: string, q: string, w: string, i: int, j: int)
    requires AllJunk(p) && AllJunk(q) && TrimBounds(s, i, j) && w == p + s + q
    ensures TrimBounds(w, |p| + i, |p| + j)
    ensures w[|p| + i..|p| + j] == s[i..j]
  {
    var o := |p|;
    assert forall k :: 0 <= k < o ==> w[k] == p[k];
    assert forall k :: 0 <= k < |s| ==> w[o + k] == s[k];
    assert forall k :: 0 <= k < |q| ==> w[o + |s| + k] == q[k];
    assert forall k :: 0 <= k < o + i ==> !IsAlnum(w[k]) by {
      forall k | 0 <= k < o + i ensures !IsAlnum(w[k]) {
        if k >= o { assert w[o + (k - o)] == s[k - o]; }
      }
    }
    assert forall k :: o + j <= k < |w| ==> !IsAlnum(w[k]) by {
      forall k | o + j <= k < |w| ensures !IsAlnum(w[k]) {
        if k < o + |s| { assert w[o + (k - o)] == s[k - o]; }
        else { assert w[o + |s| + (k - o - |s|)] == q[k - o - |s|]; }
      }
    }
    assert w[o + i..o + j] == s[i..j];
  }

  /** A string that already starts and ends with an alphanumeric character
      is left intact, interior punctuation included. */
  lemma TrimKeepsInterior(s: string)
    requires |s| > 0 && IsAlnum(s[0]) && IsAlnum(s[|s| - 1])
    ensures Trim(s) == s
  {
    assert TrimBounds(s, 0, |s|);
    TrimUnique(s, 0, |s|);
  }

  /** Trimming twice is trimming once. */
  lemma TrimIdempotent(s: string)
    ensures Trim(Trim(s)) == Trim(s)
  {
    var t := Trim(s);
    if |t| > 0 {
      TrimKeepsInterior(t);
    } else {
      assert TrimBounds(t, 0, 0);
      TrimUnique(t, 0, 0);
    }
  }
}
