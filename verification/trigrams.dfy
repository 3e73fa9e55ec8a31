/**
 The sliding three-character window generators. Both keep the last three characters
 seen and shift one character in per step; they differ in whether the first, possibly
 short, window is yielded.
 */
module TrigramGen {
  import opened Strings

  /** `free.get_trigrams(s)`: the 3-windows of `s`, left to right; nothing for a string
      shorter than three characters. */
  method FreeTrigrams(s: string) returns (r: seq<string>)
    ensures r == Windows(s)
  {
    var prev := s[..if |s| < 3 then |s| else 3];
    r := [];
    if |prev| == 3 {
      r := [prev];
    }
    if |s| > 3 {
      var j := 3;
      while j < |s|
        invariant 3 <= j <= |s|
        invariant prev == s[j - 3..j]
        invariant |r| == j - 2
        invariant forall i | 0 <= i < |r| :: r[i] == s[i..i + 3]
      {
        prev := prev[1..] + [s[j]];
        assert prev == s[j - 2..j + 1];
        r := r + [prev];
        j := j + 1;
      }
    }
  }

  /** `trgm_generate.get_trigrams(s)`: like the above, except that the first value,
      `s[:3]`, is yielded unconditionally, so a short string yields itself. */
  method GenerateTrigrams(s: string) returns (r: seq<string>)
    ensures |r| == if |s| < 3 then 1 else |s| - 2
    ensures r[0] == s[..if |s| < 3 then |s| else 3]
    ensures |s| < 3 ==> r == [s]
    ensures |s| >= 3 ==> r == Windows(s)
    ensures forall i | 0 <= i < |r| :: |r[i]| == if |s| < 3 then |s| else 3
  {
    var prev := s[..if |s| < 3 then |s| else 3];
    r := [prev];
    if |s| > 3 {
      var j := 3;
      while j < |s|
        invariant 3 <= j <= |s|
        invariant prev == s[j - 3..j]
        invariant |r| == j - 2
        invariant forall i | 0 <= i < |r| :: r[i] == s[i..i + 3]
      {
        prev := prev[1..] + [s[j]];
        assert prev == s[j - 2..j + 1];
        r := r + [prev];
        j := j + 1;
      }
    }
    if |s| < 3 {
      assert s[..|s|] == s;
    }
  }
}
